/**
 * Laravel's default global middleware as the controllers' inputs pass through
 * it: `TrimStrings` strips whitespace from both ends of every input string, and
 * `ConvertEmptyStringsToNull` then turns an empty string into null.
 */
module Middleware {
  import opened Wrappers

  /**
   * The characters the global `TrimStrings` middleware strips from both ends of
   * every input string: ASCII `\s`, NUL, and U+FEFF, U+200B and U+200E.
   */
  predicate IsTrimmed(c: char) {
    || c == ' ' || c == '\t' || c == '\n' || c == '\r' || c == '\0' || c == '\U{B}' || c == '\U{C}'
    || c == '\U{FEFF}' || c == '\U{200B}' || c == '\U{200E}'
  }

  /** How many characters `TrimStrings` strips from the front of `s`. */
  function LeadingTrimmed(s: string): (n: nat)
    ensures n <= |s|
    ensures forall k :: 0 <= k < n ==> IsTrimmed(s[k])
    ensures n < |s| ==> !IsTrimmed(s[n])
    decreases |s|
  {
    if |s| > 0 && IsTrimmed(s[0]) then 1 + LeadingTrimmed(s[1..]) else 0
  }

  /** How many characters `TrimStrings` strips from the back of `s`. */
  function TrailingTrimmed(s: string): (n: nat)
    ensures n <= |s|
    ensures forall k :: |s| - n <= k < |s| ==> IsTrimmed(s[k])
    ensures n < |s| ==> !IsTrimmed(s[|s| - n - 1])
    decreases |s|
  {
    if |s| > 0 && IsTrimmed(s[|s| - 1]) then 1 + TrailingTrimmed(s[..|s| - 1]) else 0
  }

  /** `TrimStrings`: `s` without its leading and trailing whitespace. */
  function Trim(s: string): (t: string)
    ensures t == [] || (!IsTrimmed(t[0]) && !IsTrimmed(t[|t| - 1]))
    ensures LeadingTrimmed(s) + |t| <= |s| && t == s[LeadingTrimmed(s)..LeadingTrimmed(s) + |t|]
    ensures forall k :: 0 <= k < |s| && !(LeadingTrimmed(s) <= k < LeadingTrimmed(s) + |t|) ==> IsTrimmed(s[k])
  {
    var i := LeadingTrimmed(s);
    var n := TrailingTrimmed(s[i..]);
    assert forall k :: i <= k < |s| ==> s[k] == s[i..][k - i];
    s[i..|s| - n]
  }

  /** Trimming twice is trimming once. */
  lemma TrimIdempotent(s: string)
    ensures Trim(Trim(s)) == Trim(s)
  {
    var t := Trim(s);
    assert LeadingTrimmed(t) == 0;
    assert TrailingTrimmed(t) == 0;
    assert t[0..][..|t|] == t;
  }

  /** An input string after the global `TrimStrings` and `ConvertEmptyStringsToNull` middleware. */
  function Normalized(input: Option<string>): (r: Option<string>)
    ensures r.None? <==> input.None? || Trim(input.value) == ""
    ensures r.Some? ==> r.value == Trim(input.value)
  {
    if input.None? || Trim(input.value) == "" then None else Some(Trim(input.value))
  }
}
