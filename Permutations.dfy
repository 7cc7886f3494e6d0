/** A reindexing lemma: a sequence read through an injective index map is a permutation. */
module Permutations {
  /** `s` without its element at `k`. */
  function RemoveAt(s: seq<bv8>, k: int): (r: seq<bv8>)
    requires 0 <= k < |s|
    ensures |r| == |s| - 1
    ensures forall j :: 0 <= j < |r| ==> r[j] == if j < k then s[j] else s[j + 1]
  {
    s[..k] + s[k + 1..]
  }

  /** The first `n` entries of the index map `idx`, once the index `k` is taken out of its range. */
  function Shifted(idx: seq<int>, k: int, n: nat): (r: seq<int>)
    requires n <= |idx|
    ensures |r| == n && forall i :: 0 <= i < n ==> r[i] == if idx[i] < k then idx[i] else idx[i] - 1
  {
    seq(n, i requires 0 <= i < n => if idx[i] < k then idx[i] else idx[i] - 1)
  }

  /** Removing an element takes exactly one copy of it out of the multiset. */
  lemma MultisetRemoveAt(s: seq<bv8>, k: int)
    requires 0 <= k < |s|
    ensures multiset(s) == multiset(RemoveAt(s, k)) + multiset{s[k]}
  {
    assert s == s[..k] + [s[k]] + s[k + 1..];
  }

  /** Matching the last element of `t` with `s[k]` and the rest with the rest keeps the multisets equal. */
  lemma MatchLast(s: seq<bv8>, t: seq<bv8>, k: int)
    requires 0 <= k < |s| && |t| > 0 && t[|t| - 1] == s[k]
    requires multiset(t[..|t| - 1]) == multiset(RemoveAt(s, k))
    ensures multiset(t) == multiset(s)
  {
    MultisetRemoveAt(s, k);
    assert t == t[..|t| - 1] + [t[|t| - 1]];
  }

  /** `t[i]` is `s[idx[i]]` for an `idx` that maps the indexes of `t` injectively into those of `s`. */
  predicate Reindexes(s: seq<bv8>, t: seq<bv8>, idx: seq<int>)
  {
    |s| == |t| == |idx| &&
    (forall i :: 0 <= i < |t| ==> 0 <= idx[i] < |s| && t[i] == s[idx[i]]) &&
    (forall i, j :: 0 <= i < j < |t| ==> idx[i] != idx[j])
  }

  /** Dropping the last element of `t` and the element of `s` it reads keeps a reindexing. */
  lemma ShiftedReindexes(s: seq<bv8>, t: seq<bv8>, idx: seq<int>)
    requires Reindexes(s, t, idx) && |t| > 0
    ensures var n := |t| - 1;
      0 <= idx[n] < |s| && t[n] == s[idx[n]] && Reindexes(RemoveAt(s, idx[n]), t[..n], Shifted(idx, idx[n], n))
  {
    var n := |t| - 1;
    var k := idx[n];
    var s' := RemoveAt(s, k);
    var g := Shifted(idx, k, n);
    forall i | 0 <= i < n
      ensures 0 <= g[i] < |s'| && t[..n][i] == s'[g[i]]
    {
      assert idx[i] != idx[n];
    }
    forall i, j | 0 <= i < j < n
      ensures g[i] != g[j]
    {
      assert idx[i] != idx[n] && idx[j] != idx[n];
    }
  }

  /** If every `t[i]` is `s[idx[i]]` for an injective `idx` into the indexes of `s`, then `t` is a permutation of `s`. */
  lemma {:induction false} InjectiveReindexing(s: seq<bv8>, t: seq<bv8>, idx: seq<int>)
    requires Reindexes(s, t, idx)
    ensures multiset(t) == multiset(s)
    decreases |t|
  {
    if |t| > 0 {
      var n := |t| - 1;
      var k := idx[n];
      ShiftedReindexes(s, t, idx);
      InjectiveReindexing(RemoveAt(s, k), t[..n], Shifted(idx, k, n));
      MatchLast(s, t, k);
    }
  }
}
