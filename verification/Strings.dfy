/** Substring search, as `std::string::find` decides it. */
module Strings {

  predicate OccursAt(s: string, i: nat, pattern: string) {
    i + |pattern| <= |s| && s[i..i + |pattern|] == pattern
  }

  predicate Contains(s: string, pattern: string) {
    exists i: nat :: i <= |s| && OccursAt(s, i, pattern)
  }

  lemma NoOccurrenceWithout(s: string, pattern: string, c: char)
    requires c in pattern && c !in s
    ensures !Contains(s, pattern)
  {
  }

  lemma ContainsBetween(before: string, text: string, after: string)
    ensures Contains(before + text + after, text)
  {
    var s := before + text + after;
    assert s[|before|..|before| + |text|] == text;
    assert OccursAt(s, |before|, text);
  }
}
