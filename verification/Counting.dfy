/** Counting the elements of a sequence that satisfy a predicate. */
module Counting {
  function CountIf<T>(s: seq<T>, p: T -> bool): nat {
    if s == [] then 0
    else CountIf(s[..|s| - 1], p) + if p(s[|s| - 1]) then 1 else 0
  }

  lemma {:induction false} CountAppend<T>(s: seq<T>, x: T, p: T -> bool)
    ensures CountIf(s + [x], p) == CountIf(s, p) + if p(x) then 1 else 0
  {
    assert (s + [x])[..|s|] == s;
  }

  lemma {:induction false} CountBySum<T>(s: seq<T>, p: T -> bool, q: T -> bool, r: T -> bool)
    requires forall x :: x in s && p(x) ==> q(x) || r(x)
    ensures CountIf(s, p) <= CountIf(s, q) + CountIf(s, r)
  {
    if s != [] { CountBySum(s[..|s| - 1], p, q, r); }
  }

  lemma {:induction false} CountNone<T>(s: seq<T>, p: T -> bool)
    requires forall x :: x in s ==> !p(x)
    ensures CountIf(s, p) == 0
  {
    if s != [] { CountNone(s[..|s| - 1], p); }
  }

  // Everything p counts is matched, one to one, by something q counts.
  lemma {:induction false} CountByMatching<T>(s: seq<T>, p: T -> bool, q: T -> bool, match_: map<nat, nat>)
    requires forall i :: 0 <= i < |s| && p(s[i]) ==> i in match_ && match_[i] < |s| && q(s[match_[i]])
    requires forall i, j :: 0 <= i < j < |s| && p(s[i]) && p(s[j]) ==> match_[i] != match_[j]
    ensures CountIf(s, p) <= CountIf(s, q)
  {
    CountIsCardinality(s, p);
    CountIsCardinality(s, q);
    InjectionBound(Indices(s, p), Indices(s, q), match_);
  }

  function Indices<T>(s: seq<T>, p: T -> bool): (r: set<nat>)
    ensures forall i: nat :: i in r <==> i < |s| && p(s[i])
  {
    set i: nat | 0 <= i < |s| && p(s[i])
  }

  lemma {:induction false} CountIsCardinality<T>(s: seq<T>, p: T -> bool)
    ensures CountIf(s, p) == |Indices(s, p)|
  {
    if s != [] {
      var n := |s| - 1;
      var rest := s[..n];
      CountIsCardinality(rest, p);
      var a := Indices(rest, p);
      assert Indices(s, p) == if p(s[n]) then a + {n} else a;
    }
  }

  lemma {:induction false} InjectionBound(a: set<nat>, b: set<nat>, f: map<nat, nat>)
    requires forall i :: i in a ==> i in f && f[i] in b
    requires forall i, j :: i in a && j in a && i != j ==> f[i] != f[j]
    ensures |a| <= |b|
    decreases a
  {
    if a != {} {
      var i :| i in a;
      InjectionBound(a - {i}, b - {f[i]}, f);
    }
  }
}
