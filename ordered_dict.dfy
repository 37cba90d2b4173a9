/** A Python dict that is only ever assigned to, as its items in insertion
    order: assigning to a new key appends it, assigning to a present key
    replaces its value where it stands. */
module OrderedDict {
  import opened Text
  import opened Sorting

  type Dict<K, V> = seq<(K, V)>

  /** `list(d.keys())`. */
  function ItemKeys<K(==), V>(d: Dict<K, V>): (r: seq<K>)
    ensures |r| == |d|
    ensures forall i :: 0 <= i < |d| ==> r[i] == d[i].0
  {
    if d == [] then [] else [d[0].0] + ItemKeys(d[1..])
  }

  /** `d.get(k)`. */
  function Lookup<K(==), V>(d: Dict<K, V>, k: K): Option<V> {
    if d == [] then None
    else if d[0].0 == k then Some(d[0].1)
    else Lookup(d[1..], k)
  }

  /** `d[k] = v`. */
  function Assign<K(==), V>(d: Dict<K, V>, k: K, v: V): Dict<K, V> {
    if d == [] then [(k, v)]
    else if d[0].0 == k then [(k, v)] + d[1..]
    else [d[0]] + Assign(d[1..], k, v)
  }

  /** After `d[k] = v`, k holds v and every other key keeps its value. */
  lemma {:induction false} AssignLookup<K, V>(d: Dict<K, V>, k: K, v: V, key: K)
    ensures Lookup(Assign(d, k, v), key) == if key == k then Some(v) else Lookup(d, key)
    decreases |d|
  {
    if d != [] && d[0].0 != k {
      AssignLookup(d[1..], k, v, key);
      assert Assign(d, k, v)[1..] == Assign(d[1..], k, v);
    } else if d != [] {
      assert Assign(d, k, v)[1..] == d[1..];
    }
  }

  /** `d[k] = v` keeps the order of the keys; a new key goes last. */
  lemma {:induction false} AssignKeys<K, V>(d: Dict<K, V>, k: K, v: V)
    ensures ItemKeys(Assign(d, k, v)) == if k in ItemKeys(d) then ItemKeys(d) else ItemKeys(d) + [k]
    decreases |d|
  {
    if d == [] {
    } else if d[0].0 == k {
      assert Assign(d, k, v)[1..] == d[1..];
    } else {
      var rest := d[1..];
      AssignKeys(rest, k, v);
      assert Assign(d, k, v)[1..] == Assign(rest, k, v);
      assert ItemKeys(d) == [d[0].0] + ItemKeys(rest);
      assert k in ItemKeys(d) <==> k in ItemKeys(rest);
      if k !in ItemKeys(rest) {
        assert [d[0].0] + (ItemKeys(rest) + [k]) == ItemKeys(d) + [k];
      }
    }
  }

  /** The values of s, each once, in the order of their first occurrence. */
  function Dedup<T(==)>(s: seq<T>): seq<T> {
    if s == [] then []
    else
      var r := Dedup(s[..|s| - 1]);
      if s[|s| - 1] in r then r else r + [s[|s| - 1]]
  }

  /** Deduplication keeps every value of s and nothing else. */
  lemma {:induction false} DedupMembers<T>(s: seq<T>)
    ensures forall x :: x in Dedup(s) <==> x in s
    decreases |s|
  {
    if s != [] {
      var init := s[..|s| - 1];
      DedupMembers(init);
      assert s == init + [s[|s| - 1]];
    }
  }

  /** Deduplication keeps every value once, and the values of any prefix of s
      come first: the values are ordered by where they first occur. */
  lemma {:induction false} DedupSpec<T>(s: seq<T>)
    ensures Distinct(Dedup(s))
    ensures forall x :: x in Dedup(s) <==> x in s
    ensures forall n :: 0 <= n <= |s| ==> Dedup(s[..n]) <= Dedup(s)
    decreases |s|
  {
    DedupMembers(s);
    if s != [] {
      var init, last := s[..|s| - 1], s[|s| - 1];
      DedupSpec(init);
      var r := Dedup(init);
      assert r <= Dedup(s);
      forall n | 0 <= n <= |s| ensures Dedup(s[..n]) <= Dedup(s) {
        if n < |s| {
          assert s[..n] == init[..n];
        } else {
          assert s[..n] == s;
        }
      }
      if last !in r {
        forall i, j | 0 <= i < j < |r| + 1 ensures (r + [last])[i] != (r + [last])[j] {
          if j == |r| {
            assert (r + [last])[i] == r[i] && r[i] in r;
          }
        }
      }
    }
  }
}
