/**
 * JavaScript's `String.prototype.trim`, as far as the search controller needs it:
 * the controller only ever asks whether `query.trim()` is the empty string.
 */
module JsText {

  /** The characters `trim` strips: the WhiteSpace and LineTerminator productions of ECMA-262
      (TAB, VT, FF, SP, NBSP, ZWNBSP, the other Unicode "Zs" space separators, LF, CR, LS, PS). */
  predicate IsJsWhitespace(c: char) {
    || c == '\t' || c == '\U{000B}' || c == '\U{000C}' || c == ' '
    || c == '\U{00A0}' || c == '\U{FEFF}' || c == '\U{1680}'
    || ('\U{2000}' <= c <= '\U{200A}')
    || c == '\U{202F}' || c == '\U{205F}' || c == '\U{3000}'
    || c == '\n' || c == '\r' || c == '\U{2028}' || c == '\U{2029}'
  }

  /** A string that `trim` reduces to "". */
  predicate IsBlank(s: string) {
    forall i :: 0 <= i < |s| ==> IsJsWhitespace(s[i])
  }

  /** Scans forward from `from` past whitespace: the index of the first character at or after
      `from` that is not whitespace, or `|s|` when there is none. */
  function SkipLeading(s: string, from: nat): (n: nat)
    requires from <= |s|
    ensures from <= n <= |s|
    ensures forall i :: from <= i < n ==> IsJsWhitespace(s[i])
    ensures n < |s| ==> !IsJsWhitespace(s[n])
    decreases |s| - from
  {
    if from < |s| && IsJsWhitespace(s[from]) then SkipLeading(s, from + 1) else from
  }

  /** Scans backward from `upto` past whitespace, never below `floor`: the end of the last
      character before `upto` that is not whitespace, or `floor` when there is none. */
  function SkipTrailing(s: string, floor: nat, upto: nat): (m: nat)
    requires floor <= upto <= |s|
    ensures floor <= m <= upto
    ensures forall i :: m <= i < upto ==> IsJsWhitespace(s[i])
    ensures m > floor ==> !IsJsWhitespace(s[m - 1])
    decreases upto
  {
    if upto > floor && IsJsWhitespace(s[upto - 1]) then SkipTrailing(s, floor, upto - 1) else upto
  }

  /** Where `trim`'s result starts in `s`: the first character that is not whitespace. */
  function TrimOffset(s: string): (n: nat)
    ensures n <= |s|
    ensures forall i :: 0 <= i < n ==> IsJsWhitespace(s[i])
    ensures n < |s| ==> !IsJsWhitespace(s[n])
  {
    SkipLeading(s, 0)
  }

  /** `s.trim()`: the slice of `s` from its first character that is not whitespace through its
      last one. It is "" exactly for the blank strings, which is the only use the controller
      makes of it. */
  function Trim(s: string): (r: string)
    ensures TrimOffset(s) + |r| <= |s|
    ensures r == s[TrimOffset(s)..TrimOffset(s) + |r|]
    ensures forall i :: TrimOffset(s) + |r| <= i < |s| ==> IsJsWhitespace(s[i])
    ensures r == [] || (!IsJsWhitespace(r[0]) && !IsJsWhitespace(r[|r| - 1]))
    ensures r == [] <==> IsBlank(s)
  {
    var start := TrimOffset(s);
    var end := SkipTrailing(s, start, |s|);
    s[start..end]
  }
}
