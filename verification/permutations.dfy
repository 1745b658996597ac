/** Rearranging a sequence through a permutation of its positions keeps its
    elements: the multiset argument behind "`bitReverseCopy` outputs a
    permutation of its input". */
module Permutations {

  /** `perm` lists, for each position of a sequence of length `|perm|`, a
      distinct position of that same range. */
  predicate IsPermutation(perm: seq<nat>)
  {
    && (forall j :: 0 <= j < |perm| ==> perm[j] < |perm|)
    && (forall i, j :: 0 <= i < j < |perm| ==> perm[i] != perm[j])
  }

  /** If `t[j] == s[perm[j]]` for a permutation `perm`, then `t` and `s` hold
      the same elements with the same multiplicities. */
  lemma {:induction false} ReindexPreservesMultiset<T>(s: seq<T>, t: seq<T>, perm: seq<nat>)
    requires |s| == |t| == |perm|
    requires IsPermutation(perm)
    requires forall j :: 0 <= j < |t| ==> t[j] == s[perm[j]]
    ensures multiset(t) == multiset(s)
    decreases |t|
  {
    if |t| > 0 {
      var n := |t| - 1;
      var i := perm[n];
      var s' := s[..i] + s[i + 1..];
      var t' := t[..n];
      var perm' := seq(n, j requires 0 <= j < n => if perm[j] <= i then perm[j] else perm[j] - 1);
      forall j | 0 <= j < n
        ensures perm[j] != i && perm'[j] < n && t'[j] == s'[perm'[j]]
      {
        assert perm[j] != perm[n];
      }
      forall a, b | 0 <= a < b < n
        ensures perm'[a] != perm'[b]
      {
        assert perm[a] != perm[b];
      }
      ReindexPreservesMultiset(s', t', perm');
      assert s == s[..i] + [s[i]] + s[i + 1..];
      assert t == t' + [t[n]];
    }
  }
}
