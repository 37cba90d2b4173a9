/** The class-name table read from a JSON object (Recall.py line 72): the
    object's keys are parsed as integers, sorted, and the names are read back
    under `str(i)`. Reading and decoding the file are outside the model: the
    object arrives as its key/value pairs in document order. */
module ClassNames {
  import opened Text
  import opened Sorting

  type JsonObject = seq<(string, string)>

  /** `data[key]`: `json.load` keeps the last value given for a key. */
  function Get(obj: JsonObject, key: string): Option<string> {
    if obj == [] then None
    else if obj[|obj| - 1].0 == key then Some(obj[|obj| - 1].1)
    else Get(obj[..|obj| - 1], key)
  }

  /** A key is found exactly when some pair carries it, and the value found is
      the one of the last such pair. */
  lemma {:induction false} GetSpec(obj: JsonObject, key: string)
    ensures Get(obj, key).Some? <==> exists k :: 0 <= k < |obj| && obj[k].0 == key
    ensures Get(obj, key).Some? ==> exists k :: 0 <= k < |obj| && obj[k] == (key, Get(obj, key).value)
                                      && forall j :: k < j < |obj| ==> obj[j].0 != key
    decreases |obj|
  {
    if obj != [] && obj[|obj| - 1].0 != key {
      var init := obj[..|obj| - 1];
      GetSpec(init, key);
      assert forall k :: 0 <= k < |obj| - 1 ==> init[k] == obj[k];
    }
  }

  /** `data.keys()`: every key once, where it first appears. */
  function Keys(obj: JsonObject): (r: seq<string>)
    ensures forall key :: key in r <==> exists k :: 0 <= k < |obj| && obj[k].0 == key
    ensures forall i, j :: 0 <= i < j < |r| ==> r[i] != r[j]
  {
    if obj == [] then []
    else
      var init := Keys(obj[..|obj| - 1]);
      assert forall k :: 0 <= k < |obj| - 1 ==> obj[..|obj| - 1][k] == obj[k];
      if obj[|obj| - 1].0 in init then init else init + [obj[|obj| - 1].0]
  }

  /** `[int(k) for k in keys]`; None is the ValueError of a key that is not an integer literal. */
  function ParseAll(keys: seq<string>): (r: Option<seq<int>>)
    ensures r.Some? ==> |r.value| == |keys|
    ensures r.Some? ==> forall i :: 0 <= i < |keys| ==> ParseInt(keys[i]) == Some(r.value[i])
    ensures r.None? <==> exists i :: 0 <= i < |keys| && ParseInt(keys[i]).None?
  {
    if keys == [] then Some([])
    else
      var init := ParseAll(keys[..|keys| - 1]);
      var last := ParseInt(keys[|keys| - 1]);
      assert forall i :: 0 <= i < |keys| - 1 ==> keys[..|keys| - 1][i] == keys[i];
      if init.None? || last.None? then None else Some(init.value + [last.value])
  }

  /** `[data[str(i)] for i in ids]`; None is the KeyError of a missing `str(i)`. */
  function LookupAll(obj: JsonObject, ids: seq<int>): Option<seq<string>> {
    if ids == [] then Some([])
    else
      var init := LookupAll(obj, ids[..|ids| - 1]);
      var last := Get(obj, IntString(ids[|ids| - 1]));
      if init.None? || last.None? then None else Some(init.value + [last.value])
  }

  /** The lookup yields one name per id, each the value stored under that id,
      and fails exactly when some id is missing. */
  lemma {:induction false} LookupAllSpec(obj: JsonObject, ids: seq<int>)
    ensures LookupAll(obj, ids).Some? ==> |LookupAll(obj, ids).value| == |ids|
    ensures LookupAll(obj, ids).Some? ==>
              forall i :: 0 <= i < |ids| ==> Get(obj, IntString(ids[i])) == Some(LookupAll(obj, ids).value[i])
    ensures LookupAll(obj, ids).None? <==> exists i :: 0 <= i < |ids| && Get(obj, IntString(ids[i])).None?
    decreases |ids|
  {
    if ids != [] {
      var init, k := ids[..|ids| - 1], |ids| - 1;
      LookupAllSpec(obj, init);
      var r0, last := LookupAll(obj, init), Get(obj, IntString(ids[k]));
      if r0.Some? && last.Some? {
        var r := r0.value + [last.value];
        assert LookupAll(obj, ids) == Some(r);
        forall i | 0 <= i < |ids| ensures Get(obj, IntString(ids[i])) == Some(r[i]) {
          if i < k {
            assert init[i] == ids[i] && r[i] == r0.value[i];
            assert Get(obj, IntString(init[i])) == Some(r0.value[i]);
          } else {
            assert r[i] == last.value;
          }
        }
      } else if r0.None? {
        assert LookupAll(obj, ids).None?;
        var i :| 0 <= i < k && Get(obj, IntString(init[i])).None?;
        assert init[i] == ids[i];
      } else {
        assert LookupAll(obj, ids).None?;
        assert Get(obj, IntString(ids[k])).None?;
      }
    }
  }

  /** Line 72; None when either comprehension raises. */
  function NamesFromObject(obj: JsonObject): Option<seq<string>> {
    match ParseAll(Keys(obj))
    case None => None
    case Some(ids) => LookupAll(obj, SortInts(ids))
  }

  /** The table `load_class_names` returns for a JSON object: the exception
      handler leaves the empty list. */
  function LoadFromObject(obj: JsonObject): (r: seq<string>)
    ensures NamesFromObject(obj).None? ==> r == []
  {
    match NamesFromObject(obj)
    case None => []
    case Some(names) => names
  }

  /** The keys of obj are exactly "0", "1", ..., "n-1". */
  ghost predicate Numbered(obj: JsonObject, n: nat) {
    && (forall k :: 0 <= k < |obj| ==> exists i :: 0 <= i < n && obj[k].0 == Decimal(i))
    && (forall i :: 0 <= i < n ==> Get(obj, Decimal(i)).Some?)
  }

  /** An object keyed "0", "1", ..., "n-1", in any order, yields its values in
      key order: position i holds the value stored under `str(i)`. */
  lemma NamesOfNumberedObject(obj: JsonObject, n: nat)
    requires Numbered(obj, n)
    ensures NamesFromObject(obj).Some?
    ensures |NamesFromObject(obj).value| == n
    ensures forall i :: 0 <= i < n ==> Get(obj, Decimal(i)) == Some(NamesFromObject(obj).value[i])
  {
    var ids := NumberedIds(obj, n);
    var sorted := SortInts(ids);
    SortedPermutationOfRange(ids, sorted, n);
    assert NamesFromObject(obj) == LookupAll(obj, sorted);
    LookupAllSpec(obj, sorted);
    forall i | 0 <= i < n ensures IntString(sorted[i]) == Decimal(i) && Get(obj, IntString(sorted[i])).Some? {
      assert sorted[i] == i;
    }
  }

  /** Key j of `data.keys()` is `str(i)` for some i below n, and parses back to i. */
  lemma KeyNumber(obj: JsonObject, n: nat, j: nat) returns (i: nat)
    requires Numbered(obj, n) && j < |Keys(obj)|
    ensures i < n && Keys(obj)[j] == Decimal(i) && ParseInt(Keys(obj)[j]) == Some(i)
  {
    var keys := Keys(obj);
    assert keys[j] in keys;
    var k :| 0 <= k < |obj| && obj[k].0 == keys[j];
    i :| 0 <= i < n && obj[k].0 == Decimal(i);
    ParseIntString(i);
  }

  /** The parsed keys of such an object are 0..n-1, each once. */
  lemma NumberedIds(obj: JsonObject, n: nat) returns (ids: seq<int>)
    requires Numbered(obj, n)
    ensures ParseAll(Keys(obj)) == Some(ids)
    ensures forall j :: 0 <= j < |ids| ==> 0 <= ids[j] < n
    ensures forall i :: 0 <= i < n ==> i in ids
    ensures forall a, b :: 0 <= a < b < |ids| ==> ids[a] != ids[b]
  {
    NumberedKeysParse(obj, n);
    ids := ParseAll(Keys(obj)).value;
    NumberedIdsInRange(obj, n, ids);
    NumberedIdsCover(obj, n, ids);
    NumberedIdsDistinct(obj, n, ids);
  }

  lemma NumberedKeysParse(obj: JsonObject, n: nat)
    requires Numbered(obj, n)
    ensures ParseAll(Keys(obj)).Some?
  {
    forall j | 0 <= j < |Keys(obj)| ensures ParseInt(Keys(obj)[j]).Some? {
      var i := KeyNumber(obj, n, j);
    }
  }

  lemma NumberedIdsInRange(obj: JsonObject, n: nat, ids: seq<int>)
    requires Numbered(obj, n) && ParseAll(Keys(obj)) == Some(ids)
    ensures forall j :: 0 <= j < |ids| ==> 0 <= ids[j] < n
  {
    forall j | 0 <= j < |ids| ensures 0 <= ids[j] < n {
      var i := KeyNumber(obj, n, j);
    }
  }

  lemma NumberedIdsCover(obj: JsonObject, n: nat, ids: seq<int>)
    requires Numbered(obj, n) && ParseAll(Keys(obj)) == Some(ids)
    ensures forall i :: 0 <= i < n ==> i in ids
  {
    var keys := Keys(obj);
    forall i | 0 <= i < n ensures i in ids {
      GetSpec(obj, Decimal(i));
      assert Decimal(i) in keys;
      var j :| 0 <= j < |keys| && keys[j] == Decimal(i);
      ParseIntString(i);
      assert ids[j] == i;
    }
  }

  lemma NumberedIdsDistinct(obj: JsonObject, n: nat, ids: seq<int>)
    requires Numbered(obj, n) && ParseAll(Keys(obj)) == Some(ids)
    ensures forall a, b :: 0 <= a < b < |ids| ==> ids[a] != ids[b]
  {
    forall a, b | 0 <= a < b < |ids| ensures ids[a] != ids[b] {
      var ia := KeyNumber(obj, n, a);
      var ib := KeyNumber(obj, n, b);
    }
  }

  /** A sorted permutation of a repetition-free list that holds exactly
      0..n-1 is 0, 1, ..., n-1. */
  lemma SortedPermutationOfRange(ids: seq<int>, sorted: seq<int>, n: nat)
    requires forall j :: 0 <= j < |ids| ==> 0 <= ids[j] < n
    requires forall i :: 0 <= i < n ==> i in ids
    requires forall a, b :: 0 <= a < b < |ids| ==> ids[a] != ids[b]
    requires multiset(sorted) == multiset(ids)
    requires forall a, b :: 0 <= a < b < |sorted| ==> sorted[a] <= sorted[b]
    ensures |sorted| == n
    ensures forall i :: 0 <= i < n ==> sorted[i] == i
  {
    assert forall v :: v in sorted <==> v in ids by {
      forall v ensures v in sorted <==> v in ids {
        assert v in sorted <==> v in multiset(sorted);
        assert v in ids <==> v in multiset(ids);
      }
    }
    forall a, b | 0 <= a < b < |sorted| ensures sorted[a] < sorted[b] {
      if sorted[a] == sorted[b] {
        TwiceInMultiset(sorted, a, b);
        OnceInMultiset(ids, sorted[a]);
        assert false;
      }
    }
    forall j | 0 <= j < |sorted| ensures sorted[j] == j {
      IdentityAt(sorted, n, j);
    }
    if |sorted| > 0 {
      assert sorted[|sorted| - 1] in ids;
    }
    if n > 0 {
      assert n - 1 in sorted;
      var p :| 0 <= p < |sorted| && sorted[p] == n - 1;
    }
  }

  /** Keys are converted by `int()`, so " 1" and "1" are the same class id and
      both positions read the value stored under "1". */
  lemma PaddedKeyExample(obj: JsonObject)
    requires obj == [("0", "a"), (" 1", "b"), ("1", "c")]
    ensures NamesFromObject(obj) == Some(["a", "c", "c"])
  {
    var keys := Keys(obj);
    PaddedKeyKeys(obj);
    var ids := PaddedKeyIds(keys);
    var sorted := SortInts(ids);
    SortedZeroOneOne(sorted);
    PaddedKeyLookup(obj, sorted);
  }

  lemma PaddedKeyKeys(obj: JsonObject)
    requires obj == [("0", "a"), (" 1", "b"), ("1", "c")]
    ensures Keys(obj) == ["0", " 1", "1"]
  {
    var init := obj[..2];
    assert Keys(init) == ["0", " 1"] by {
      assert init == [("0", "a"), (" 1", "b")] && init[..1] == [("0", "a")];
      assert Keys(init[..1]) == ["0"];
    }
    assert obj[|obj| - 1].0 !in Keys(init);
  }

  lemma SortedZeroOneOne(r: seq<int>)
    requires forall i, j :: 0 <= i < j < |r| ==> r[i] <= r[j]
    requires multiset(r) == multiset([0, 1, 1])
    ensures r == [0, 1, 1]
  {
    assert |r| == |multiset(r)| == 3;
    assert r == [r[0], r[1], r[2]];
    assert multiset(r) == multiset{r[0], r[1], r[2]};
    assert multiset(r)[0] == 1 && multiset(r)[1] == 2;
  }

  lemma PaddedKeyLookup(obj: JsonObject, ids: seq<int>)
    requires obj == [("0", "a"), (" 1", "b"), ("1", "c")] && ids == [0, 1, 1]
    ensures LookupAll(obj, ids) == Some(["a", "c", "c"])
  {
    assert IntString(0) == "0" && IntString(1) == "1";
    assert obj[..2] == [("0", "a"), (" 1", "b")] && obj[..2][..1] == [("0", "a")];
    assert Get(obj[..2][..1], "0") == Some("a");
    assert Get(obj[..2], "0") == Some("a");
    assert Get(obj, "0") == Some("a") && Get(obj, "1") == Some("c");
    assert ids[..2] == [0, 1] && ids[..2][..1] == [0] && [0][..0] == [];
    assert LookupAll(obj, [0][..0]) == Some([]) && [0][0] == 0 && [] + ["a"] == ["a"];
    assert LookupAll(obj, [0]) == Some(["a"]);
    assert ids[..2][1] == 1 && ["a"] + ["c"] == ["a", "c"];
    assert LookupAll(obj, ids[..2]) == Some(["a", "c"]);
    assert ids[2] == 1 && ["a", "c"] + ["c"] == ["a", "c", "c"];
  }

  lemma PaddedKeyIds(keys: seq<string>) returns (ids: seq<int>)
    requires keys == ["0", " 1", "1"]
    ensures ParseAll(keys) == Some(ids) && ids == [0, 1, 1]
  {
    PaddedKeyParses(keys);
    ids := ParseAll(keys).value;
    assert ids == [ids[0], ids[1], ids[2]];
  }

  lemma PaddedKeyParses(keys: seq<string>)
    requires keys == ["0", " 1", "1"]
    ensures ParseInt(keys[0]) == Some(0) && ParseInt(keys[1]) == Some(1) && ParseInt(keys[2]) == Some(1)
  {
    assert ParseInt(keys[0]) == Some(0) by {
      ParseIntString(0);
      assert IntString(0) == "0";
    }
    assert ParseInt(keys[1]) == Some(1) by {
      DigitsAreGroups("1");
      ParseIntAccepts(" ", "1", "", 1);
      assert " " + "1" + "" == " 1";
    }
    assert ParseInt(keys[2]) == Some(1) by {
      ParseIntString(1);
      assert IntString(1) == "1";
    }
  }
}
