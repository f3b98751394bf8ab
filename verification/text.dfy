/**
 The two string primitives the search filter relies on: `String.prototype.toLowerCase`,
 abstracted to ASCII letters, and `String.prototype.includes`, the substring test.
 */
module Text {

  predicate IsUpper(c: char)
  {
    'A' <= c <= 'Z'
  }

  /** Lower-cases one ASCII capital; every other character is left alone. */
  function Lower(c: char): (r: char)
    ensures !IsUpper(r)
    ensures !IsUpper(c) ==> r == c
    ensures IsUpper(c) ==> 'a' <= r <= 'z' && r as int - c as int == 'a' as int - 'A' as int
  {
    if IsUpper(c) then (c as int + ('a' as int - 'A' as int)) as char else c
  }

  /** The string lower-cased character by character. */
  function ToLower(s: string): (r: string)
    ensures |r| == |s|
    ensures forall i :: 0 <= i < |r| ==> r[i] == Lower(s[i])
    ensures forall i :: 0 <= i < |r| ==> !IsUpper(r[i])
  {
    seq(|s|, i requires 0 <= i < |s| => Lower(s[i]))
  }

  /** Lower-casing an already lower-cased string changes nothing. */
  lemma ToLowerIdempotent(s: string)
    ensures ToLower(ToLower(s)) == ToLower(s)
  {
  }

  /** `needle` occurs in `hay` starting at position `i`. */
  ghost predicate OccursAt(hay: string, needle: string, i: int)
  {
    0 <= i && i + |needle| <= |hay| && hay[i..i + |needle|] == needle
  }

  function StartsWith(s: string, prefix: string): bool
  {
    |prefix| <= |s| && s[..|prefix|] == prefix
  }

  /** JavaScript's `hay.includes(needle)`: true exactly when `needle` occurs somewhere in `hay`. */
  function Contains(hay: string, needle: string): (b: bool)
    ensures b <==> exists i :: OccursAt(hay, needle, i)
    decreases |hay|
  {
    if StartsWith(hay, needle) then
      assert OccursAt(hay, needle, 0);
      true
    else if |hay| == 0 then
      false
    else
      var b := Contains(hay[1..], needle);
      ShiftOccurrence(hay, needle);
      b
  }

  /** Occurrences in `hay[1..]` are exactly the occurrences in `hay` after position 0. */
  lemma ShiftOccurrence(hay: string, needle: string)
    requires |hay| > 0
    ensures forall j :: 1 <= j ==> (OccursAt(hay, needle, j) <==> OccursAt(hay[1..], needle, j - 1))
    ensures forall i :: 0 <= i ==> (OccursAt(hay[1..], needle, i) ==> OccursAt(hay, needle, i + 1))
    ensures OccursAt(hay, needle, 0) <==> StartsWith(hay, needle)
  {
    forall j | 1 <= j
      ensures OccursAt(hay, needle, j) <==> OccursAt(hay[1..], needle, j - 1)
    {
      if j + |needle| <= |hay| {
        assert hay[1..][j - 1..j - 1 + |needle|] == hay[j..j + |needle|];
      }
    }
    forall i | 0 <= i && OccursAt(hay[1..], needle, i)
      ensures OccursAt(hay, needle, i + 1)
    {
      assert hay[1..][i..i + |needle|] == hay[i + 1..i + 1 + |needle|];
    }
  }

  /** Every string includes the empty string. */
  lemma ContainsEmpty(hay: string)
    ensures Contains(hay, "")
  {
    assert OccursAt(hay, "", 0);
  }

  /** A string cannot include a needle holding a character the string lacks. */
  lemma MissingCharNotContained(hay: string, needle: string, c: char)
    requires c in needle && c !in hay
    ensures !Contains(hay, needle)
  {
  }

  /** Lower-casing produces a small letter only from itself or its capital. */
  lemma LowerCaseOrigin(s: string, c: char)
    requires 'a' <= c <= 'z'
    requires c !in s && (c as int - ('a' as int - 'A' as int)) as char !in s
    ensures c !in ToLower(s)
  {
  }
}
