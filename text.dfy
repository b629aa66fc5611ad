/** Character classes, case folding and the forbidden-phrase filter (tree.cpp). */
module Text {

  /** The character at `i`, or the terminating NUL past the end of the text. */
  function At(s: string, i: nat): char
  {
    if i < |s| then s[i] else '\0'
  }

  /** `isspace` in the C locale: space, \t, \n, \v, \f, \r. */
  predicate IsSpace(c: char)
  {
    c == ' ' || ('\t' <= c <= '\r')
  }

  /** `tolower` in the C locale: only 'A'..'Z' change. */
  function ToLower(c: char): char
  {
    if 'A' <= c <= 'Z' then (c as int + 32) as char else c
  }

  /** The text with every character case-folded. */
  function Lower(s: string): (r: string)
    ensures |r| == |s|
    ensures forall i :: 0 <= i < |s| ==> r[i] == ToLower(s[i])
  {
    if s == [] then [] else [ToLower(s[0])] + Lower(s[1..])
  }

  /** Folding twice is folding once. */
  lemma LowerIdempotent(s: string)
    ensures Lower(Lower(s)) == Lower(s)
  {
  }

  /** Folding distributes over concatenation. */
  lemma LowerConcat(a: string, b: string)
    ensures Lower(a + b) == Lower(a) + Lower(b)
  {
  }

  /** `strdup` followed by an in-place `tolower` over the copy. */
  method StringToLowerCopy(s: string) returns (r: string)
    ensures r == Lower(s)
  {
    var buffer := new char[|s|](i requires 0 <= i < |s| => s[i]);
    var i := 0;
    while i < buffer.Length
      invariant 0 <= i <= buffer.Length == |s|
      invariant forall k :: 0 <= k < i ==> buffer[k] == ToLower(s[k])
      invariant forall k :: i <= k < |s| ==> buffer[k] == s[k]
    {
      buffer[i] := ToLower(buffer[i]);
      i := i + 1;
    }
    r := buffer[..];
  }

  /** `p` occurs in `text` starting at index `k`. */
  predicate OccursAt(text: string, p: string, k: nat)
  {
    k + |p| <= |text| && text[k..k + |p|] == p
  }

  /** `strstr(text, p) != NULL`: `p` occurs somewhere in `text`. */
  predicate Contains(text: string, p: string)
  {
    exists k: nat :: k <= |text| && OccursAt(text, p, k)
  }

  /** The phrases that may not appear in an answer. */
  const FORBIDDEN_PHRASES: seq<string> :=
    ["do not", "is not", "does not", "did not", "don't", "isn't", "doesn't", "didn't"]

  /** Some forbidden phrase occurs in the case-folded text. */
  predicate HasNegativeWords(s: string)
  {
    exists i :: 0 <= i < |FORBIDDEN_PHRASES| && Contains(Lower(s), FORBIDDEN_PHRASES[i])
  }

  /** Returns 1 when the text holds a forbidden phrase in any letter case, 0 otherwise. */
  method ContainsNegativeWords(s: string) returns (found: int)
    ensures found == 0 || found == 1
    ensures found == 1 <==> HasNegativeWords(s)
  {
    var lower := StringToLowerCopy(s);
    found := 0;
    var i := 0;
    while i < |FORBIDDEN_PHRASES|
      invariant 0 <= i <= |FORBIDDEN_PHRASES|
      invariant found == 0
      invariant forall k :: 0 <= k < i ==> !Contains(lower, FORBIDDEN_PHRASES[k])
    {
      if Contains(lower, FORBIDDEN_PHRASES[i]) {
        found := 1;
        break;
      }
      i := i + 1;
    }
  }

  /** An occurrence survives putting text on either side, shifted by the text before it. */
  lemma OccursAtShift(x: string, t: string, y: string, p: string, k: nat)
    requires OccursAt(t, p, k)
    ensures OccursAt(x + t + y, p, |x| + k)
  {
    var u := x + t + y;
    assert u[|x| + k..|x| + k + |p|] == t[k..k + |p|];
  }

  /** A phrase found in a text is still found once the text is embedded in a longer one. */
  lemma NegativeWordsInContext(a: string, s: string, b: string)
    requires HasNegativeWords(s)
    ensures HasNegativeWords(a + s + b)
  {
    var i :| 0 <= i < |FORBIDDEN_PHRASES| && Contains(Lower(s), FORBIDDEN_PHRASES[i]);
    var p := FORBIDDEN_PHRASES[i];
    var k: nat :| k <= |Lower(s)| && OccursAt(Lower(s), p, k);
    LowerConcat(a + s, b);
    LowerConcat(a, s);
    OccursAtShift(Lower(a), Lower(s), Lower(b), p, k);
    assert OccursAt(Lower(a + s + b), p, |a| + k);
  }
}
