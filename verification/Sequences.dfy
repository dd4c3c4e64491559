/** Permutations of sequences, one element at a time. */
module Sequences {
  /** Taking one occurrence of the last element of `p` out of a permutation of `p`. */
  lemma TakeOut<T>(p: seq<T>, q: seq<T>) returns (k: nat)
    requires multiset(p) == multiset(q) && p != []
    ensures k < |q| && q[k] == p[|p| - 1]
    ensures q == q[..k] + [p[|p| - 1]] + q[k + 1..]
    ensures multiset(p[..|p| - 1]) == multiset(q[..k] + q[k + 1..])
  {
    var init, last := p[..|p| - 1], p[|p| - 1];
    assert p == init + [last];
    assert last in multiset(q);
    k :| 0 <= k < |q| && q[k] == last;
    var left, right := q[..k], q[k + 1..];
    assert q == left + [last] + right;
    assert multiset(p) == multiset(init) + multiset{last};
    assert multiset(q) == multiset(left) + multiset{last} + multiset(right);
    assert multiset(left + right) == multiset(left) + multiset(right);
    assert multiset(init) == multiset(p) - multiset{last};
  }
}
