/** Python's `sorted`/`list.sort` as a stable insertion sort over a caller-given
    "less than or equal" relation, and Python's ordering of `str` values
    (lexicographic by code point). */
module Sorting {

  ghost predicate TotalPreorder<T(!new)>(le: (T, T) -> bool) {
    && (forall a, b :: le(a, b) || le(b, a))
    && (forall a, b, c :: le(a, b) && le(b, c) ==> le(a, c))
  }

  predicate SortedBy<T>(s: seq<T>, le: (T, T) -> bool) {
    forall i, j :: 0 <= i < j < |s| ==> le(s[i], s[j])
  }

  /** Inserts x after every element that is not greater than it, which keeps
      elements of equal rank in their original order. */
  function Insert<T>(x: T, s: seq<T>, le: (T, T) -> bool): (r: seq<T>)
    ensures multiset(r) == multiset(s) + multiset{x}
    ensures |r| == |s| + 1
  {
    if s == [] then [x]
    else if le(s[|s| - 1], x) then s + [x]
    else
      assert s == s[..|s| - 1] + [s[|s| - 1]];
      Insert(x, s[..|s| - 1], le) + [s[|s| - 1]]
  }

  function SortBy<T>(s: seq<T>, le: (T, T) -> bool): (r: seq<T>)
    ensures multiset(r) == multiset(s)
    ensures |r| == |s|
  {
    if s == [] then []
    else
      assert s == s[..|s| - 1] + [s[|s| - 1]];
      Insert(s[|s| - 1], SortBy(s[..|s| - 1], le), le)
  }

  lemma {:induction false} InsertSorted<T(!new)>(x: T, s: seq<T>, le: (T, T) -> bool)
    requires TotalPreorder(le)
    requires SortedBy(s, le)
    ensures SortedBy(Insert(x, s, le), le)
    decreases |s|
  {
    if s != [] && !le(s[|s| - 1], x) {
      var init, last := s[..|s| - 1], s[|s| - 1];
      InsertSorted(x, init, le);
      var r := Insert(x, init, le);
      forall i | 0 <= i < |r| ensures le(r[i], last) {
        assert r[i] in multiset(r);
        if r[i] in multiset(init) {
          var k :| 0 <= k < |init| && init[k] == r[i];
          assert s[k] == r[i];
        } else {
          assert r[i] == x;
        }
      }
    }
  }

  /** The sorted list is ordered by `le` and is a permutation of the input. */
  lemma {:induction false} SortBySorted<T(!new)>(s: seq<T>, le: (T, T) -> bool)
    requires TotalPreorder(le)
    ensures SortedBy(SortBy(s, le), le) && multiset(SortBy(s, le)) == multiset(s)
    decreases |s|
  {
    if s != [] {
      SortBySorted(s[..|s| - 1], le);
      InsertSorted(s[|s| - 1], SortBy(s[..|s| - 1], le), le);
    }
  }

  /** Neither of x and y ranks before the other. */
  predicate Tied<T>(x: T, y: T, le: (T, T) -> bool) {
    le(x, y) && le(y, x)
  }

  /** The elements of s tied with x, in their order in s. */
  function Ties<T>(s: seq<T>, x: T, le: (T, T) -> bool): seq<T> {
    if s == [] then [] else Ties(s[..|s| - 1], x, le) + TieOf(s[|s| - 1], x, le)
  }

  /** [v] when v is tied with x, otherwise nothing. */
  function TieOf<T>(v: T, x: T, le: (T, T) -> bool): seq<T> {
    if Tied(x, v, le) then [v] else []
  }

  /** Inserting y into a sorted list puts it after every element tied with it.
      Of the preorder laws only transitivity through x is needed. */
  lemma {:induction false} InsertTies<T>(y: T, s: seq<T>, x: T, le: (T, T) -> bool)
    requires SortedBy(s, le)
    requires forall z :: z in s && le(z, x) && le(x, y) ==> le(z, y)
    ensures Ties(Insert(y, s, le), x, le) == Ties(s, x, le) + TieOf(y, x, le)
    decreases |s|
  {
    if s == [] {
      TiesSnoc([], y, x, le);
      assert Insert(y, s, le) == [] + [y];
    } else if le(s[|s| - 1], y) {
      TiesSnoc(s, y, x, le);
      assert Insert(y, s, le) == s + [y];
    } else {
      var init, last := s[..|s| - 1], s[|s| - 1];
      SortedPrefix(s, le);
      assert forall z :: z in init ==> z in s;
      InsertTies(y, init, x, le);
      var r := Insert(y, init, le);
      assert Insert(y, s, le) == r + [last];
      TiesSnoc(r, last, x, le);
      assert Ties(s, x, le) == Ties(init, x, le) + TieOf(last, x, le);
      if Tied(x, y, le) && Tied(x, last, le) {
        // last <= x <= y would contradict the branch condition
        assert false;
      }
      TiesSwap(Ties(init, x, le), TieOf(y, x, le), TieOf(last, x, le));
    }
  }

  /** Two parts of which one is empty can be appended in either order. */
  lemma TiesSwap<T>(t: seq<T>, a: seq<T>, b: seq<T>)
    requires a == [] || b == []
    ensures t + a + b == t + b + a
  {
    if a == [] {
      assert t + a == t && t + b + a == t + b;
    } else {
      assert t + a + b == t + a && t + b == t;
    }
  }

  lemma TiesSnoc<T>(s: seq<T>, v: T, x: T, le: (T, T) -> bool)
    ensures Ties(s + [v], x, le) == Ties(s, x, le) + TieOf(v, x, le)
  {
    assert (s + [v])[..|s|] == s;
  }

  /** Dropping the last element keeps a list sorted. */
  lemma SortedPrefix<T>(s: seq<T>, le: (T, T) -> bool)
    requires s != [] && SortedBy(s, le)
    ensures SortedBy(s[..|s| - 1], le)
  {
    var init := s[..|s| - 1];
    forall i, j | 0 <= i < j < |init| ensures le(init[i], init[j]) {
      assert init[i] == s[i] && init[j] == s[j];
    }
  }

  /** The sort is stable: elements tied with any x keep their relative order. */
  lemma {:induction false} SortByStable<T(!new)>(s: seq<T>, x: T, le: (T, T) -> bool)
    requires TotalPreorder(le)
    ensures Ties(SortBy(s, le), x, le) == Ties(s, x, le)
    decreases |s|
  {
    if s != [] {
      var init, last := s[..|s| - 1], s[|s| - 1];
      SortByStable(init, x, le);
      SortBySorted(init, le);
      InsertTies(last, SortBy(init, le), x, le);
    }
  }

  /** Python's `<=` on `str`: lexicographic by code point, a proper prefix first. */
  predicate LexLe(a: string, b: string)
  {
    a == [] || (b != [] && (a[0] < b[0] || (a[0] == b[0] && LexLe(a[1..], b[1..]))))
  }

  lemma {:induction false} LexLeTotal(a: string, b: string)
    ensures LexLe(a, b) || LexLe(b, a)
  {
    if a != [] && b != [] && a[0] == b[0] {
      LexLeTotal(a[1..], b[1..]);
    }
  }

  lemma {:induction false} LexLeTransitive(a: string, b: string, c: string)
    requires LexLe(a, b) && LexLe(b, c)
    ensures LexLe(a, c)
  {
    if a != [] && b != [] && c != [] && a[0] == b[0] && b[0] == c[0] {
      LexLeTransitive(a[1..], b[1..], c[1..]);
    }
  }

  lemma {:induction false} LexLeAntisymmetric(a: string, b: string)
    requires LexLe(a, b) && LexLe(b, a)
    ensures a == b
  {
    if a != [] && b != [] {
      LexLeAntisymmetric(a[1..], b[1..]);
      assert a == [a[0]] + a[1..];
      assert b == [b[0]] + b[1..];
    }
  }

  lemma LexLeIsTotalPreorder()
    ensures TotalPreorder(LexLe)
  {
    forall a, b ensures LexLe(a, b) || LexLe(b, a) {
      LexLeTotal(a, b);
    }
    forall a, b, c | LexLe(a, b) && LexLe(b, c) ensures LexLe(a, c) {
      LexLeTransitive(a, b, c);
    }
  }

  /** Python `list.sort()` on a list of strings. */
  function SortStrings(s: seq<string>): (r: seq<string>)
    ensures SortedBy(r, LexLe) && multiset(r) == multiset(s)
  {
    LexLeIsTotalPreorder();
    SortBySorted(s, LexLe);
    SortBy(s, LexLe)
  }

  /** Python `list.sort()` on a list of integers. */
  function SortInts(s: seq<int>): (r: seq<int>)
    ensures forall i, j :: 0 <= i < j < |r| ==> r[i] <= r[j]
    ensures multiset(r) == multiset(s)
  {
    var le := (a: int, b: int) => a <= b;
    SortBySorted(s, le);
    SortBy(s, le)
  }

  /** A prefix one element longer is the prefix extended by that element. */
  lemma SliceSnoc<T>(s: seq<T>, i: nat)
    requires i < |s|
    ensures s[..i + 1] == s[..i] + [s[i]]
  {}

  /** An index within the first part of a concatenation stays in that part. */
  lemma IndexInFirst<T>(a: seq<T>, b: seq<T>, k: int)
    requires 0 <= k < |a|
    ensures (a + b)[k] == a[k]
  {}

  /** An index past the first part of a concatenation lands in the second part. */
  lemma IndexInSecond<T>(a: seq<T>, b: seq<T>, k: int)
    requires |a| <= k < |a| + |b|
    ensures (a + b)[k] == b[k - |a|]
  {}

  predicate Distinct<T(==)>(s: seq<T>) {
    forall i, j :: 0 <= i < j < |s| ==> s[i] != s[j]
  }

  /** A list with no repetition holds each value at most once. */
  lemma {:induction false} OnceInMultiset<T>(s: seq<T>, v: T)
    requires Distinct(s)
    ensures multiset(s)[v] <= 1
  {
    if s != [] {
      var init := s[..|s| - 1];
      OnceInMultiset(init, v);
      assert s == init + [s[|s| - 1]];
      if s[|s| - 1] == v {
        assert v !in init;
      }
    }
  }

  lemma TwiceInMultiset<T>(s: seq<T>, a: nat, b: nat)
    requires a < b < |s| && s[a] == s[b]
    ensures multiset(s)[s[a]] >= 2
  {
    var v := s[a];
    assert s == s[..b] + [s[b]] + s[b + 1..];
    assert s[..b][a] == v;
    assert multiset(s[..b])[v] >= 1;
  }

  /** A list holding each value at most once has no repetition. */
  lemma CountsDistinct<T>(s: seq<T>)
    requires forall v :: multiset(s)[v] <= 1
    ensures Distinct(s)
  {
    forall a, b | 0 <= a < b < |s| ensures s[a] != s[b] {
      if s[a] == s[b] {
        TwiceInMultiset(s, a, b);
      }
    }
  }

  /** A strictly increasing list whose values are exactly 0..n-1 is 0, 1, ..., n-1. */
  lemma {:induction false} IdentityAt(s: seq<int>, n: nat, j: nat)
    requires forall a, b :: 0 <= a < b < |s| ==> s[a] < s[b]
    requires forall v :: v in s ==> 0 <= v < n
    requires forall v :: 0 <= v < n ==> v in s
    requires j < |s|
    ensures s[j] == j
  {
    if j > 0 {
      IdentityAt(s, n, j - 1);
    } else {
      assert s[0] in s;
    }
    assert s[j] in s;
    if s[j] > j {
      assert j in s;
      var p :| 0 <= p < |s| && s[p] == j;
      if p < j {
        IdentityAt(s, n, p);
      }
    }
  }
}
