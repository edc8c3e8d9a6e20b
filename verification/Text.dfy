/** Substrings. */
module Text {
  predicate StartsAt(s: string, sub: string, k: int) {
    0 <= k && k + |sub| <= |s| && s[k..k + |sub|] == sub
  }

  // Python's `sub in s`.
  predicate Contains(s: string, sub: string) {
    exists k :: 0 <= k <= |s| && StartsAt(s, sub, k)
  }

  lemma {:induction false} ContainsStep(s: string, sub: string)
    requires s != []
    ensures Contains(s, sub) <==> StartsAt(s, sub, 0) || Contains(s[1..], sub)
  {
    if k :| 0 <= k <= |s| && StartsAt(s, sub, k) {
      if k > 0 {
        assert s[1..][k - 1..k - 1 + |sub|] == s[k..k + |sub|];
        assert StartsAt(s[1..], sub, k - 1);
      }
    }
    if k :| 0 <= k <= |s[1..]| && StartsAt(s[1..], sub, k) {
      assert s[k + 1..k + 1 + |sub|] == s[1..][k..k + |sub|];
      assert StartsAt(s, sub, k + 1);
    }
  }
}
