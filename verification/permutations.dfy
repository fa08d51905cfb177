/**
 Rearranging a sequence along an injective choice of positions keeps its
 multiset of elements.
 */
module Permutations {

  /** `p` picks distinct positions of a sequence of length `n`. */
  ghost predicate InjectiveIndices(p: seq<nat>, n: nat)
  {
    && (forall i :: 0 <= i < |p| ==> p[i] < n)
    && (forall i, j :: 0 <= i < j < |p| ==> p[i] != p[j])
  }

  /** `t` takes its element at `i` from `s` at `p[i]`. */
  ghost predicate PicksFrom<T>(t: seq<T>, s: seq<T>, p: seq<nat>)
  {
    && |t| == |p|
    && (forall i :: 0 <= i < |p| ==> p[i] < |s| && t[i] == s[p[i]])
  }

  /** Positions after `k` move down by one once `k` is removed. */
  function CloseGap(p: seq<nat>, k: nat): (q: seq<nat>)
    ensures |q| == |p|
  {
    seq(|p|, i requires 0 <= i < |p| => if p[i] > k then p[i] - 1 else p[i])
  }

  lemma {:induction false} InjectiveRearrangementKeepsMultiset<T>(t: seq<T>, s: seq<T>, p: seq<nat>)
    requires |s| == |t|
    requires InjectiveIndices(p, |s|)
    requires PicksFrom(t, s, p)
    ensures multiset(t) == multiset(s)
    decreases |t|
  {
    if |t| > 0 {
      var n := |t| - 1;
      var k := p[n];
      var s' := s[..k] + s[k + 1..];
      var t' := t[..n];
      var p' := CloseGap(p[..n], k);
      forall i | 0 <= i < n
        ensures p'[i] < |s'| && t'[i] == s'[p'[i]]
      {
        assert p[i] != k;
      }
      forall i, j | 0 <= i < j < n
        ensures p'[i] != p'[j]
      {
        assert p[i] != p[j] && p[i] != k && p[j] != k;
      }
      InjectiveRearrangementKeepsMultiset(t', s', p');
      assert t == t' + [t[n]];
      assert s == s[..k] + [s[k]] + s[k + 1..];
      calc {
        multiset(t);
        multiset(t') + multiset([t[n]]);
        multiset(s') + multiset([s[k]]);
        multiset(s[..k]) + multiset(s[k + 1..]) + multiset([s[k]]);
        multiset(s);
      }
    }
  }
}
