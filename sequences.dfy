/** Facts about sequences of row ids listed in primary-key order. */
module Sequences {

  ghost predicate StrictlyIncreasing(s: seq<nat>) {
    forall i, j :: 0 <= i < j < |s| ==> s[i] < s[j]
  }

  /** Appending an element above all others keeps a sequence increasing. */
  lemma AppendLarger(s: seq<nat>, x: nat)
    requires StrictlyIncreasing(s)
    requires forall y :: y in s ==> y < x
    ensures StrictlyIncreasing(s + [x])
  {
    forall i, j | 0 <= i < j < |s| + 1 ensures (s + [x])[i] < (s + [x])[j] {
      if j == |s| { assert s[i] in s; }
    }
  }

  /** The elements of a strictly increasing sequence
      occur once each: its multiset is that of its set of elements. */
  lemma {:induction false} IncreasingIsDistinct(s: seq<nat>)
    requires StrictlyIncreasing(s)
    ensures multiset(s) == multiset(set x | x in s)
  {
    if s != [] {
      var init, x := s[..|s| - 1], s[|s| - 1];
      assert s == init + [x];
      IncreasingIsDistinct(init);
      assert x !in init by {
        forall i | 0 <= i < |init| ensures init[i] != x {
          assert s[i] < s[|s| - 1];
        }
      }
      var elems := set y | y in init;
      assert (set y | y in s) == elems + {x};
      assert multiset(elems + {x}) == multiset(elems) + multiset{x};
    }
  }
}
