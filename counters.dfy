/** Reads and increments of `collections.defaultdict(int)` and
    `collections.Counter`, shared by the evaluator and the dataset splitter. */
module Counters {

  /** `m[k]` on a `defaultdict(int)` or a `Counter`: a missing key counts 0. */
  function Get<K>(m: map<K, nat>, k: K): nat {
    if k in m then m[k] else 0
  }

  /** `m[k] += 1`: the key is present afterwards, its count rises by one and
      every other count stays. */
  function Inc<K(!new)>(m: map<K, nat>, k: K): (r: map<K, nat>)
    ensures r.Keys == m.Keys + {k}
    ensures Get(r, k) == Get(m, k) + 1
    ensures forall d :: d != k ==> Get(r, d) == Get(m, d)
  {
    m[k := Get(m, k) + 1]
  }
}
