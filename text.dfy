/** The two string searches the parser relies on: Python's `str.find` and the `in` operator. */
module Text {

  /** `p` occurs in `s` starting at index `j`. */
  predicate OccursAt(s: string, p: string, j: int) {
    0 <= j && j + |p| <= |s| && s[j..j + |p|] == p
  }

  /** `s.find(p, from)`: the first index at or after `from` where `p` occurs, or -1. */
  function Find(s: string, p: string, from: nat): (r: int)
    decreases |s| - from
    ensures r == -1 || (from <= r && OccursAt(s, p, r))
    ensures r == -1 ==> forall j :: from <= j ==> !OccursAt(s, p, j)
    ensures r != -1 ==> forall j :: from <= j < r ==> !OccursAt(s, p, j)
  {
    if from + |p| > |s| then -1
    else if s[from..from + |p|] == p then from
    else Find(s, p, from + 1)
  }

  /** `p in s`. */
  predicate Contains(s: string, p: string)
  {
    Find(s, p, 0) != -1
  }

  /** Every character of a pattern that occurs in `s` is a character of `s`. */
  lemma ContainsChars(s: string, p: string, k: int)
    requires Contains(s, p) && 0 <= k < |p|
    ensures p[k] in s
  {
    var j := Find(s, p, 0);
    assert s[j..j + |p|][k] == p[k];
    assert s[j + k] == p[k];
  }

  /** A string lacking one character of `p` does not contain `p`. */
  lemma LacksChar(s: string, p: string, k: int)
    requires 0 <= k < |p| && p[k] !in s
    ensures !Contains(s, p)
  {
    if Contains(s, p) {
      ContainsChars(s, p, k);
    }
  }

  /** A string that contains `p` contains every prefix of `p`. */
  lemma ContainsPrefix(s: string, p: string, n: nat)
    requires Contains(s, p) && n <= |p|
    ensures Contains(s, p[..n])
  {
    var j := Find(s, p, 0);
    assert s[j..j + n] == s[j..j + |p|][..n];
    assert OccursAt(s, p[..n], j);
  }
}
