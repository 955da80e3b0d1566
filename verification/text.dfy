/** Case normalisation of words.

    Every lookup and every count in the metrics is case-insensitive: a word is
    normalised by lower-casing it before it is used as a key. Lower-casing is
    modelled character by character over ASCII; other characters are left as
    they are. */
module Text {

  /** Lower-cases one ASCII capital letter; every other character is unchanged. */
  function LowerChar(c: char): (r: char)
    ensures 'A' <= c <= 'Z' ==> 'a' <= r <= 'z' && r as int - c as int == 32
    ensures !('A' <= c <= 'Z') ==> r == c
  {
    if 'A' <= c <= 'Z' then (c as int + 32) as char else c
  }

  /** A character is normalised when lower-casing leaves it unchanged. */
  predicate IsLowerChar(c: char) {
    !('A' <= c <= 'Z')
  }

  /** The normalised form of a word (Python's `word.lower()`, restricted to ASCII). */
  function Lower(s: string): (r: string)
    ensures |r| == |s|
    ensures forall i :: 0 <= i < |s| ==> r[i] == LowerChar(s[i])
  {
    seq(|s|, i requires 0 <= i < |s| => LowerChar(s[i]))
  }

  /** A word is normalised when it has no ASCII capital letter. */
  predicate IsLower(s: string) {
    forall i :: 0 <= i < |s| ==> IsLowerChar(s[i])
  }

  /** Lower-casing yields a normalised word, and normalised words are exactly
      the fixed points of lower-casing; hence lower-casing is idempotent. */
  lemma LowerNormalises(s: string)
    ensures IsLower(Lower(s))
    ensures IsLower(s) <==> Lower(s) == s
    ensures Lower(Lower(s)) == Lower(s)
  {
    if IsLower(s) {
      assert forall i :: 0 <= i < |s| ==> Lower(s)[i] == s[i];
    }
    if Lower(s) == s {
      forall i | 0 <= i < |s|
        ensures IsLowerChar(s[i])
      {
        assert LowerChar(s[i]) == s[i];
      }
    }
  }

  /** Upper-cases one ASCII small letter; every other character is unchanged. */
  function UpperChar(c: char): (r: char)
    ensures 'a' <= c <= 'z' ==> 'A' <= r <= 'Z' && c as int - r as int == 32
    ensures !('a' <= c <= 'z') ==> r == c
  {
    if 'a' <= c <= 'z' then (c as int - 32) as char else c
  }

  /** Python's `word.upper()`, restricted to ASCII. */
  function Upper(s: string): (r: string)
    ensures |r| == |s|
    ensures forall i :: 0 <= i < |s| ==> r[i] == UpperChar(s[i])
  {
    seq(|s|, i requires 0 <= i < |s| => UpperChar(s[i]))
  }

  /** In this ASCII model, upper-casing a word does not change its
      normalised form, so a search for `w.upper()` finds what a search for
      `w` finds. Python's full Unicode case mappings do not promise this:
      `"straße".upper()` is `"STRASSE"`, which lower-cases to `"strasse"`. */
  lemma LowerOfUpper(s: string)
    ensures Lower(Upper(s)) == Lower(s)
  {
    forall i | 0 <= i < |s|
      ensures Lower(Upper(s))[i] == Lower(s)[i]
    {
      var c := s[i];
      if 'a' <= c <= 'z' {
        assert LowerChar(UpperChar(c)) == c;
      }
    }
  }
}
