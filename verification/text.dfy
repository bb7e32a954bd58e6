/** The text matching behind the search endpoint: `ILIKE '%term%'`, read as
    "the question text contains the term, ignoring ASCII letter case". */
module Text {

  function LowerChar(c: char): char {
    if 'A' <= c <= 'Z' then (c as int + 32) as char else c
  }

  /** ASCII lower-casing, letter by letter. */
  function Lower(s: string): (r: string)
    ensures |r| == |s|
    ensures forall i :: 0 <= i < |s| ==> r[i] == LowerChar(s[i])
  {
    seq(|s|, i requires 0 <= i < |s| => LowerChar(s[i]))
  }

  /** `pattern` occurs in `s` starting at index `i`. */
  ghost predicate OccursAt(s: string, pattern: string, i: int) {
    0 <= i && i + |pattern| <= |s| && s[i..i + |pattern|] == pattern
  }

  /** Substring search by scanning the start positions of `s` in turn. */
  function Contains(s: string, pattern: string): (r: bool)
    ensures r <==> exists i :: OccursAt(s, pattern, i)
  {
    if |pattern| <= |s| && s[..|pattern|] == pattern then
      assert OccursAt(s, pattern, 0);
      true
    else if s == [] then
      assert forall i :: !OccursAt(s, pattern, i);
      false
    else
      var r := Contains(s[1..], pattern);
      assert forall i :: OccursAt(s[1..], pattern, i) <==> OccursAt(s, pattern, i + 1);
      assert forall i :: OccursAt(s, pattern, i) && i > 0 ==> OccursAt(s[1..], pattern, i - 1);
      r
  }

  /** `term` occurs in `text` at index `i` when letters are compared
      without regard to ASCII case. */
  ghost predicate OccursAtIgnoringCase(text: string, term: string, i: int) {
    && 0 <= i
    && i + |term| <= |text|
    && forall k :: 0 <= k < |term| ==> LowerChar(text[i + k]) == LowerChar(term[k])
  }

  /** Lower-casing both sides turns a case-insensitive occurrence into a
      literal one, and back. */
  lemma OccursAtLower(text: string, term: string, i: int)
    ensures OccursAt(Lower(text), Lower(term), i) <==> OccursAtIgnoringCase(text, term, i)
  {
    if 0 <= i && i + |term| <= |text| {
      var window := Lower(text)[i..i + |term|];
      assert forall k :: 0 <= k < |term| ==> window[k] == LowerChar(text[i + k]);
      if OccursAtIgnoringCase(text, term, i) {
        assert window == Lower(term);
      }
    }
  }

  /** `text ILIKE '%term%'` restricted to ASCII case folding: the term
      occurs somewhere in the text, letter case aside. */
  function ContainsIgnoringCase(text: string, term: string): (r: bool)
    ensures r <==> exists i :: OccursAtIgnoringCase(text, term, i)
  {
    var r := Contains(Lower(text), Lower(term));
    assert forall i :: OccursAt(Lower(text), Lower(term), i) <==> OccursAtIgnoringCase(text, term, i) by {
      forall i
        ensures OccursAt(Lower(text), Lower(term), i) <==> OccursAtIgnoringCase(text, term, i)
      {
        OccursAtLower(text, term, i);
      }
    }
    r
  }

  /** A match does not depend on the letter case of the search term. */
  lemma MatchIgnoresTermCase(text: string, term: string)
    ensures ContainsIgnoringCase(text, term) == ContainsIgnoringCase(text, Lower(term))
    ensures ContainsIgnoringCase(text, term) == ContainsIgnoringCase(Lower(text), term)
  {
    assert Lower(Lower(term)) == Lower(term);
    assert Lower(Lower(text)) == Lower(text);
  }

  /** A term that literally occurs in the text matches it. */
  lemma LiteralOccurrenceMatches(text: string, term: string, i: int)
    requires OccursAt(text, term, i)
    ensures ContainsIgnoringCase(text, term)
  {
    assert Lower(text)[i..i + |term|] == Lower(term);
    assert OccursAt(Lower(text), Lower(term), i);
  }
}
