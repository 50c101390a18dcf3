/**
 * Facts about sequences shared by the listing and the summary.
 */
module Sequences {
  /** A value found at two distinct positions occurs at least twice. */
  lemma RepeatedTwice<T>(s: seq<T>, i: int, j: int)
    requires 0 <= i < j < |s| && s[i] == s[j]
    ensures multiset(s)[s[i]] >= 2
  {
    var a, b := s[..j], s[j..];
    assert s == a + b;
    assert s[i] == a[i];
    assert s[j] == b[0];
  }
}
