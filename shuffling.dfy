/** The in-place shuffle the quiz endpoint applies to a deck's cards: the
    Fisher-Yates walk from the last position down, where the step for
    position i swaps it with a position drawn uniformly from 0..i. The random
    draws are a parameter: a draw is reduced modulo the number of positions
    still open, and a missing draw counts as 0. */
module Shuffling {

  function Draw(draws: seq<nat>): nat {
    if draws == [] then 0 else draws[0]
  }

  function Rest(draws: seq<nat>): seq<nat> {
    if draws == [] then [] else draws[1..]
  }

  /** `s` with position `j` and its last position exchanged. */
  function SwapLast<T>(s: seq<T>, j: nat): (r: seq<T>)
    requires j < |s|
    ensures |r| == |s| && r[|s| - 1] == s[j]
  {
    s[j := s[|s| - 1]][|s| - 1 := s[j]]
  }

  /** Swap the drawn position with the last one, then shuffle what lies
      before the last position. */
  function Shuffle<T>(s: seq<T>, draws: seq<nat>): (r: seq<T>)
    ensures |r| == |s|
    decreases |s|
  {
    if |s| <= 1 then s
    else
      var swapped := SwapLast(s, Draw(draws) % |s|);
      Shuffle(swapped[..|s| - 1], Rest(draws)) + [swapped[|s| - 1]]
  }

  /** Whatever the draws, a shuffle is a permutation of its input. */
  lemma {:induction false} ShufflePermutes<T>(s: seq<T>, draws: seq<nat>)
    ensures multiset(Shuffle(s, draws)) == multiset(s)
    decreases |s|
  {
    if |s| > 1 {
      var swapped := SwapLast(s, Draw(draws) % |s|);
      var prefix, x := swapped[..|s| - 1], swapped[|s| - 1];
      ShufflePermutes(prefix, Rest(draws));
      assert swapped == prefix + [x];
      calc {
        multiset(Shuffle(s, draws));
        multiset(Shuffle(prefix, Rest(draws))) + multiset{x};
        multiset(prefix) + multiset{x};
        multiset(swapped);
      }
    }
  }

  /** In particular a shuffle holds exactly the elements of its input. */
  lemma ShuffleKeepsElements<T>(s: seq<T>, draws: seq<nat>)
    ensures forall x :: x in Shuffle(s, draws) <==> x in s
  {
    ShufflePermutes(s, draws);
    forall x ensures x in Shuffle(s, draws) <==> x in s {
      assert x in Shuffle(s, draws) <==> x in multiset(Shuffle(s, draws));
    }
  }

  /** A shuffle whose first draw is already below the length swaps exactly
      that position into last place. */
  lemma ShuffleStep<T>(s: seq<T>, j: nat, d: seq<nat>)
    requires 1 < |s| && j < |s|
    ensures Shuffle(s, [j] + d) == Shuffle(SwapLast(s, j)[..|s| - 1], d) + [s[j]]
  {
    var draws := [j] + d;
    assert Draw(draws) == j && Rest(draws) == d;
    DrawInRange(j, |s|);
  }

  lemma DrawInRange(j: nat, n: nat)
    requires j < n
    ensures j % n == j
  {
  }

  /** Once the element `p` ends with is swapped into last place, what is
      left of `s` is a permutation of the rest of `p`. */
  lemma RestAfterSwap<T>(s: seq<T>, p: seq<T>, j: nat)
    requires multiset(p) == multiset(s) && |p| == |s|
    requires j < |s| && s[j] == p[|p| - 1]
    ensures multiset(SwapLast(s, j)[..|s| - 1]) == multiset(p[..|p| - 1])
  {
    var n, x := |s|, s[j];
    var swapped := SwapLast(s, j);
    assert swapped == swapped[..n - 1] + [x];
    assert p == p[..n - 1] + [x];
    calc {
      multiset(swapped[..n - 1]);
      multiset(swapped) - multiset{x};
      multiset(p) - multiset{x};
      multiset(p[..n - 1]);
    }
  }

  /** Conversely, every permutation of the input is the outcome of some
      draws: the model does not restrict which order a quiz comes in. */
  lemma ShuffleReaches<T>(s: seq<T>, p: seq<T>)
    requires multiset(p) == multiset(s)
    ensures exists draws :: Shuffle(s, draws) == p
  {
    var draws := DrawsFor(s, p);
  }

  /** The draws that make the shuffle of `s` come out as `p`: at each step,
      the position in what is left of `s` of the element `p` has there. */
  lemma {:induction false} DrawsFor<T>(s: seq<T>, p: seq<T>) returns (draws: seq<nat>)
    requires multiset(p) == multiset(s)
    ensures Shuffle(s, draws) == p
    decreases |s|
  {
    assert |p| == |multiset(p)| == |s|;
    if |s| <= 1 {
      assert |s| == 1 ==> p[0] in multiset(s);
      assert p == s;
      draws := [];
    } else {
      var n := |s|;
      var x := p[n - 1];
      assert p == p[..n - 1] + [x];
      assert x in multiset(s) by { assert x in multiset(p); }
      var j: nat :| j < n && s[j] == x;
      var prefix := SwapLast(s, j)[..n - 1];
      RestAfterSwap(s, p, j);
      var d := DrawsFor(prefix, p[..n - 1]);
      ShuffleStep(s, j, d);
      draws := [j] + d;
    }
  }
}
