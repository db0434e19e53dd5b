/** String tests used by the manifest builder, with the meaning of
    JavaScript's `String.prototype.endsWith` and `String.prototype.includes`. */
module Strings {

  /** `s.endsWith(suffix)`: the last |suffix| characters of s are suffix. */
  predicate EndsWith(s: string, suffix: string)
  {
    |suffix| <= |s| && s[|s| - |suffix|..] == suffix
  }

  /** sub occurs in s starting at position i. */
  predicate OccursAt(s: string, sub: string, i: int)
  {
    0 <= i <= |s| - |sub| && s[i..i + |sub|] == sub
  }

  /** `s.includes(sub)`: sub occurs in s at some position. */
  predicate Contains(s: string, sub: string)
  {
    exists i | 0 <= i <= |s| - |sub| :: OccursAt(s, sub, i)
  }

  /** A string that ends with a suffix agrees with it character by
      character, counted from the end. */
  lemma EndsWithAt(s: string, suffix: string, k: nat)
    requires EndsWith(s, suffix)
    requires k < |suffix|
    ensures s[|s| - 1 - k] == suffix[|suffix| - 1 - k]
  {
  }

  /** Prepending a common prefix is injective: two prefixed strings are
      equal only when what follows the prefix is. */
  lemma PrefixCancel(p: string, a: string, b: string)
    requires p + a == p + b
    ensures a == b
  {
    assert a == (p + a)[|p|..];
    assert b == (p + b)[|p|..];
  }
}
