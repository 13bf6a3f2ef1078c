/**
 * The two JavaScript string built-ins the page relies on, as the ECMAScript
 * language defines them on strings of code points:
 * `String.prototype.trim` and `indexOf` for a single character.
 */
module JsText {

  /** The characters `trim` strips: ECMAScript WhiteSpace and LineTerminator. */
  predicate IsJsWhitespace(c: char) {
    || c == '\t' || c == '\n' || c == '\U{000B}' || c == '\U{000C}' || c == '\r'
    || c == ' ' || c == '\U{00A0}' || c == '\U{1680}'
    || ('\U{2000}' <= c <= '\U{200A}')
    || c == '\U{2028}' || c == '\U{2029}' || c == '\U{202F}' || c == '\U{205F}'
    || c == '\U{3000}' || c == '\U{FEFF}'
  }

  /** The end of the run of whitespace that starts at `i`: where `trim` cuts in front. */
  function SpaceEnd(s: string, i: nat): (n: nat)
    requires i <= |s|
    ensures i <= n <= |s|
    ensures forall k :: i <= k < n ==> IsJsWhitespace(s[k])
    ensures n < |s| ==> !IsJsWhitespace(s[n])
    decreases |s| - i
  {
    if i == |s| || !IsJsWhitespace(s[i]) then i else SpaceEnd(s, i + 1)
  }

  /** The start of the run of whitespace that ends at `j`, going no lower than `lo`: where `trim` cuts behind. */
  function SpaceStart(s: string, lo: nat, j: nat): (n: nat)
    requires lo <= j <= |s|
    ensures lo <= n <= j
    ensures forall k :: n <= k < j ==> IsJsWhitespace(s[k])
    ensures lo < n ==> !IsJsWhitespace(s[n - 1])
    decreases j
  {
    if j == lo || !IsJsWhitespace(s[j - 1]) then j else SpaceStart(s, lo, j - 1)
  }

  /** `String.prototype.trim`: what lies between the leading and the trailing whitespace. */
  function Trim(s: string): (r: string)
    ensures |r| <= |s|
  {
    var i := SpaceEnd(s, 0);
    s[i..SpaceStart(s, i, |s|)]
  }

  /** `trim` yields the empty string exactly when every character is whitespace. */
  lemma TrimEmptyIff(s: string)
    ensures Trim(s) == [] <==> forall k :: 0 <= k < |s| ==> IsJsWhitespace(s[k])
  {
  }

  /** `trim` leaves a string that holds no whitespace exactly as it is. */
  lemma TrimNoWhitespace(s: string)
    requires forall k :: 0 <= k < |s| ==> !IsJsWhitespace(s[k])
    ensures Trim(s) == s
  {
  }

  /** `trim` cuts `s` into the whitespace it drops in front, the result, and the whitespace it drops behind. */
  lemma TrimSplit(s: string) returns (lead: string, trail: string)
    ensures s == lead + Trim(s) + trail
    ensures forall k :: 0 <= k < |lead| ==> IsJsWhitespace(lead[k])
    ensures forall k :: 0 <= k < |trail| ==> IsJsWhitespace(trail[k])
  {
    var i := SpaceEnd(s, 0);
    var j := SpaceStart(s, i, |s|);
    lead, trail := s[..i], s[j..];
    assert s == s[..i] + s[i..j] + s[j..];
  }

  /** What `trim` keeps neither starts nor ends with whitespace. */
  lemma TrimEnds(s: string)
    ensures Trim(s) == [] || (!IsJsWhitespace(Trim(s)[0]) && !IsJsWhitespace(Trim(s)[|Trim(s)| - 1]))
  {
  }

  /** `indexOf` of a single character: the first position holding it, or -1 when it does not occur. */
  function IndexOf(table: seq<char>, c: char): (i: int)
    ensures -1 <= i < |table|
    ensures i >= 0 ==> table[i] == c && forall k :: 0 <= k < i ==> table[k] != c
    ensures i == -1 <==> c !in table
  {
    if table == [] then -1
    else if table[0] == c then 0
    else
      var j := IndexOf(table[1..], c);
      if j < 0 then -1 else j + 1
  }

  /** No character occurs twice. */
  ghost predicate Distinct(table: seq<char>) {
    forall i, j :: 0 <= i < j < |table| ==> table[i] != table[j]
  }

  /** In a table without repeats, looking up the entry at position `i` finds `i`. */
  lemma IndexOfDistinct(table: seq<char>, i: int)
    requires Distinct(table) && 0 <= i < |table|
    ensures IndexOf(table, table[i]) == i
  {
  }
}
