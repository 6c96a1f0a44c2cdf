/** Substring containment, as Python's `needle in haystack` on strings. */
module Text {

  predicate OccursAt(haystack: string, needle: string, k: nat) {
    k + |needle| <= |haystack| && haystack[k..k + |needle|] == needle
  }

  ghost predicate Contains(haystack: string, needle: string) {
    exists k: nat :: OccursAt(haystack, needle, k)
  }

  /** A string occurs in any text that embeds it. */
  lemma ContainsMiddle(before: string, needle: string, after: string)
    ensures Contains(before + needle + after, needle)
  {
    assert OccursAt(before + needle + after, needle, |before|);
  }
}
