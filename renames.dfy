/** The renaming passes of rename_labels.py and yolo2coco.py over one
    directory: the entries are sorted by natural key, the label files (or the
    images) among them are numbered from 0 and each is renamed to its frame
    name with `os.rename`, skipping a file that already bears it. A directory
    is a map from entry names to their contents; `os.listdir` is the
    `listing` argument, which holds every entry once, in any order. */
module Renames {
  import opened Text
  import opened Sorting
  import opened Naming

  /** Which pass: rename_labels.py renames label files to `.txt` frame names,
      yolo2coco.py renames images to `.jpg` frame names. */
  datatype Pass = LabelPass | ImagePass

  predicate Selected(pass: Pass, name: string) {
    match pass
    case LabelPass => IsLabelFile(name)
    case ImagePass => IsImageFile(name)
  }

  function Extension(pass: Pass): string {
    match pass
    case LabelPass => ".txt"
    case ImagePass => ".jpg"
  }

  /** What `os.listdir` returns for a directory: every entry exactly once. */
  ghost predicate IsListing<C>(listing: seq<string>, dir: map<string, C>) {
    Distinct(listing) && forall x :: x in listing <==> x in dir
  }

  /** `[f for f in files if ...]`: the selected names, in their order. */
  function Select(pass: Pass, names: seq<string>): seq<string> {
    if names == [] then []
    else
      var init := Select(pass, names[..|names| - 1]);
      if Selected(pass, names[|names| - 1]) then init + [names[|names| - 1]] else init
  }

  /** The filter keeps each selected name as often as the input holds it and
      drops every other name. */
  lemma {:induction false} SelectCount(pass: Pass, names: seq<string>)
    ensures forall x :: multiset(Select(pass, names))[x] == if Selected(pass, x) then multiset(names)[x] else 0
    decreases |names|
  {
    if names != [] {
      SelectCount(pass, names[..|names| - 1]);
      assert names == names[..|names| - 1] + [names[|names| - 1]];
    }
  }

  /** Filtering keeps a sorted list sorted. */
  lemma {:induction false} SelectSorted(pass: Pass, names: seq<string>, le: (string, string) -> bool)
    requires SortedBy(names, le)
    ensures SortedBy(Select(pass, names), le)
    decreases |names|
  {
    if names != [] {
      var init, last := names[..|names| - 1], names[|names| - 1];
      SelectSorted(pass, init, le);
      var r := Select(pass, init);
      SelectCount(pass, init);
      forall y | y in r ensures le(y, last) {
        assert y in multiset(r);
        assert y in multiset(init);
        var k :| 0 <= k < |init| && init[k] == y;
        assert names[k] == y;
      }
    }
  }

  /** Two selected names pass the filter whole. */
  lemma SelectTwo(pass: Pass, a: string, b: string)
    requires Selected(pass, a) && Selected(pass, b)
    ensures Select(pass, [a, b]) == [a, b]
  {
    assert Select(pass, [a]) == [a] by { assert [a][..0] == []; }
    assert Select(pass, [a, b]) == Select(pass, [a]) + [b] by { assert [a, b][..1] == [a]; }
  }

  /** The files a pass renames, in the order it renames them. */
  function Files(pass: Pass, listing: seq<string>): seq<string> {
    Select(pass, SortNatural(listing))
  }

  /** The new names of n files: `frame{str(idx).zfill(digits)}` plus ext. */
  function FrameNames(n: nat, ext: string): (r: seq<string>)
    ensures |r| == n
  {
    seq(n, i requires 0 <= i < n => FrameName(i, Digits(n), ext))
  }

  function Names(pass: Pass, n: nat): (r: seq<string>)
    ensures |r| == n
  {
    FrameNames(n, Extension(pass))
  }

  /** The selected files are exactly the selected entries, each once. */
  lemma FilesOfListing<C>(pass: Pass, listing: seq<string>, dir: map<string, C>)
    requires IsListing(listing, dir)
    ensures Distinct(Files(pass, listing))
    ensures forall x :: x in Files(pass, listing) <==> x in dir && Selected(pass, x)
  {
    var sorted := SortNatural(listing);
    var files := Files(pass, listing);
    SelectCount(pass, sorted);
    forall v ensures multiset(files)[v] <= 1 {
      OnceInMultiset(listing, v);
    }
    CountsDistinct(files);
    forall x ensures x in files <==> x in dir && Selected(pass, x) {
      assert x in files <==> x in multiset(files);
      assert x in listing <==> x in multiset(listing);
    }
  }

  /** `os.rename(old, new)` of a file on POSIX: the content moves to the new
      name, replacing any file that already had it. */
  function Move<C>(dir: map<string, C>, from: string, to: string): map<string, C>
    requires from in dir
  {
    (dir - {from})[to := dir[from]]
  }

  /** The directory after the first k steps of the loop: file i is renamed
      to name i unless it already bears it. A file still waiting for its turn
      is always present, so `os.rename` never misses its source. */
  function Applied<C>(dir: map<string, C>, files: seq<string>, names: seq<string>, k: nat): (r: map<string, C>)
    requires |names| == |files| && k <= |files|
    requires Distinct(files) && forall i :: 0 <= i < |files| ==> files[i] in dir
    ensures forall j :: k <= j < |files| ==> files[j] in r
  {
    if k == 0 then dir
    else
      var m := Applied(dir, files, names, k - 1);
      if files[k - 1] == names[k - 1] then m else Move(m, files[k - 1], names[k - 1])
  }

  /** The directory after `rename_labels_in_dir` / `rename_frames_in_dir`. */
  function RenamedFiles<C>(pass: Pass, dir: map<string, C>, listing: seq<string>): map<string, C>
    requires IsListing(listing, dir)
  {
    var files := Files(pass, listing);
    FilesOfListing(pass, listing, dir);
    Applied(dir, files, Names(pass, |files|), |files|)
  }

  /** rename_labels.py:19-32 and yolo2coco.py:19-34. */
  method RenameFilesInDir<C>(pass: Pass, dir: map<string, C>, listing: seq<string>) returns (result: map<string, C>)
    requires IsListing(listing, dir)
    ensures result == RenamedFiles(pass, dir, listing)
  {
    var files := Select(pass, SortNatural(listing));
    FilesOfListing(pass, listing, dir);
    result := RenameInOrder(dir, files, Extension(pass));
  }

  /** The loop of lines 25-32 (rename_labels.py) and 26-34 (yolo2coco.py). */
  method RenameInOrder<C>(dir: map<string, C>, files: seq<string>, ext: string) returns (result: map<string, C>)
    requires Distinct(files) && forall i :: 0 <= i < |files| ==> files[i] in dir
    ensures result == Applied(dir, files, FrameNames(|files|, ext), |files|)
  {
    var digits := Digits(|files|);
    ghost var names := FrameNames(|files|, ext);
    result := dir;
    for idx := 0 to |files|
      invariant result == Applied(dir, files, names, idx)
    {
      var newName := FrameName(idx, digits, ext);
      if files[idx] != newName {
        result := Move(result, files[idx], newName);
      }
    }
  }

  /** No file still waiting for its turn bears the new name of an earlier
      file; otherwise that earlier rename would replace it. */
  ghost predicate NoClobber(files: seq<string>, names: seq<string>) {
    |names| == |files| && forall i, j :: 0 <= i < j < |files| ==> files[j] != names[i]
  }

  /** The names s[0..k-1] as a set. */
  ghost function PrefixSet(s: seq<string>, k: nat): set<string>
    requires k <= |s|
  {
    if k == 0 then {} else PrefixSet(s, k - 1) + {s[k - 1]}
  }

  lemma {:induction false} PrefixSetHas(s: seq<string>, k: nat, x: string)
    requires k <= |s|
    ensures x in PrefixSet(s, k) <==> exists i :: 0 <= i < k && s[i] == x
  {
    if k > 0 {
      PrefixSetHas(s, k - 1, x);
    }
  }

  /** The entries are always those of dir less the renamed files plus their
      new names, whatever the names are (a skipped file is its own new name). */
  lemma {:induction false} AppliedKeys<C>(dir: map<string, C>, files: seq<string>, names: seq<string>, k: nat)
    requires |names| == |files| && k <= |files|
    requires Distinct(files) && forall i :: 0 <= i < |files| ==> files[i] in dir
    requires NoClobber(files, names)
    ensures Applied(dir, files, names, k).Keys == (dir.Keys - PrefixSet(files, k)) + PrefixSet(names, k)
  {
    if k > 0 {
      AppliedKeys(dir, files, names, k - 1);
      var f := files[k - 1];
      PrefixSetHas(files, k - 1, f);
      PrefixSetHas(names, k - 1, f);
    }
  }

  /** Names 0..k-1 hold the contents of files 0..k-1. */
  ghost predicate MovedUpTo<C>(dir: map<string, C>, files: seq<string>, names: seq<string>, k: nat, r: map<string, C>)
    requires |names| == |files| && k <= |files|
    requires forall i :: 0 <= i < |files| ==> files[i] in dir
  {
    forall i :: 0 <= i < k ==> names[i] in r && r[names[i]] == dir[files[i]]
  }

  /** Files k.. are still there with their contents. */
  ghost predicate WaitingFrom<C>(dir: map<string, C>, files: seq<string>, k: nat, r: map<string, C>)
    requires k <= |files|
    requires forall i :: 0 <= i < |files| ==> files[i] in dir
  {
    forall j :: k <= j < |files| ==> files[j] in r && r[files[j]] == dir[files[j]]
  }

  /** Entries that are not renamed keep their contents. */
  ghost predicate Untouched<C>(dir: map<string, C>, files: seq<string>, r: map<string, C>) {
    forall x :: x in dir && x !in files ==> x in r && r[x] == dir[x]
  }

  /** Without clobbering, the loop renames every file and loses nothing. */
  lemma AppliedContents<C>(dir: map<string, C>, files: seq<string>, names: seq<string>, k: nat)
    requires |names| == |files| && k <= |files|
    requires Distinct(files) && forall i :: 0 <= i < |files| ==> files[i] in dir
    requires Distinct(names) && NoClobber(files, names)
    requires forall i :: 0 <= i < |names| && names[i] in dir ==> names[i] in files
    ensures MovedUpTo(dir, files, names, k, Applied(dir, files, names, k))
    ensures WaitingFrom(dir, files, k, Applied(dir, files, names, k))
    ensures Untouched(dir, files, Applied(dir, files, names, k))
  {
    AppliedMoved(dir, files, names, k);
    AppliedWaiting(dir, files, names, k);
    AppliedUntouched(dir, files, names, k);
  }

  lemma {:induction false} AppliedWaiting<C>(dir: map<string, C>, files: seq<string>, names: seq<string>, k: nat)
    requires |names| == |files| && k <= |files|
    requires Distinct(files) && forall i :: 0 <= i < |files| ==> files[i] in dir
    requires NoClobber(files, names)
    ensures WaitingFrom(dir, files, k, Applied(dir, files, names, k))
  {
    if k == 0 {
      assert Applied(dir, files, names, k) == dir;
    } else {
      AppliedWaiting(dir, files, names, k - 1);
      var m := Applied(dir, files, names, k - 1);
      var f, n := files[k - 1], names[k - 1];
      var r := Applied(dir, files, names, k);
      assert r == if f == n then m else Move(m, f, n);
      forall j | k <= j < |files| ensures files[j] in r && r[files[j]] == dir[files[j]] {
        assert files[j] != f && files[j] != n;
      }
    }
  }

  lemma {:induction false} AppliedUntouched<C>(dir: map<string, C>, files: seq<string>, names: seq<string>, k: nat)
    requires |names| == |files| && k <= |files|
    requires Distinct(files) && forall i :: 0 <= i < |files| ==> files[i] in dir
    requires forall i :: 0 <= i < |names| && names[i] in dir ==> names[i] in files
    ensures Untouched(dir, files, Applied(dir, files, names, k))
  {
    if k == 0 {
      assert Applied(dir, files, names, k) == dir;
    } else {
      AppliedUntouched(dir, files, names, k - 1);
      var m := Applied(dir, files, names, k - 1);
      var f, n := files[k - 1], names[k - 1];
      var r := Applied(dir, files, names, k);
      assert r == if f == n then m else Move(m, f, n);
      assert f in files;
      forall x | x in dir && x !in files ensures x in r && r[x] == dir[x] {
        assert n in dir ==> n in files;
      }
    }
  }

  lemma {:induction false} AppliedMoved<C>(dir: map<string, C>, files: seq<string>, names: seq<string>, k: nat)
    requires |names| == |files| && k <= |files|
    requires Distinct(files) && forall i :: 0 <= i < |files| ==> files[i] in dir
    requires Distinct(names) && NoClobber(files, names)
    ensures MovedUpTo(dir, files, names, k, Applied(dir, files, names, k))
  {
    if k > 0 {
      AppliedMoved(dir, files, names, k - 1);
      AppliedWaiting(dir, files, names, k - 1);
      var m := Applied(dir, files, names, k - 1);
      var f, n := files[k - 1], names[k - 1];
      var r := Applied(dir, files, names, k);
      assert r == if f == n then m else Move(m, f, n);
      assert f in m && m[f] == dir[f];
      forall i | 0 <= i < k ensures names[i] in r && r[names[i]] == dir[files[i]] {
        if i < k - 1 {
          assert names[i] != n && names[i] != f;
        }
      }
    }
  }

  /** What `rename_labels_in_dir` / `rename_frames_in_dir` leave behind when no
      selected file bears the frame name of a file that comes before it:
      frame name i holds the content of the i-th selected file in natural
      order, every other entry is untouched, and nothing else is there. */
  lemma RenamedFilesContents<C>(pass: Pass, dir: map<string, C>, listing: seq<string>)
    requires IsListing(listing, dir)
    requires NoClobber(Files(pass, listing), Names(pass, |Files(pass, listing)|))
    ensures var files, names, r := Files(pass, listing), Names(pass, |Files(pass, listing)|), RenamedFiles(pass, dir, listing);
      && (forall i :: 0 <= i < |files| ==> names[i] in r && files[i] in dir && r[names[i]] == dir[files[i]])
      && (forall x :: x in dir && !Selected(pass, x) ==> x in r && r[x] == dir[x])
      && (forall x :: x in r <==> (x in dir && !Selected(pass, x)) || x in names)
  {
    var files := Files(pass, listing);
    var names := Names(pass, |files|);
    FilesOfListing(pass, listing, dir);
    NamesFitFiles(pass, dir, files);
    AppliedContents(dir, files, names, |files|);
    AppliedFinalKeys(dir, files, names);
  }

  /** The new names are distinct, and one that is already taken is taken by
      a selected file. */
  lemma NamesFitFiles<C>(pass: Pass, dir: map<string, C>, files: seq<string>)
    requires forall x :: x in files <==> x in dir && Selected(pass, x)
    ensures Distinct(Names(pass, |files|))
    ensures forall i :: 0 <= i < |files| && Names(pass, |files|)[i] in dir ==> Names(pass, |files|)[i] in files
  {
    var names := Names(pass, |files|);
    forall i, j | 0 <= i < j < |names| ensures names[i] != names[j] {
      FrameNamesDistinct(i, j, Digits(|files|), Extension(pass));
    }
    forall i | 0 <= i < |names| ensures Selected(pass, names[i]) {
      FrameNameSelected(pass, i, Digits(|files|));
    }
  }

  lemma AppliedFinalKeys<C>(dir: map<string, C>, files: seq<string>, names: seq<string>)
    requires |names| == |files|
    requires Distinct(files) && forall i :: 0 <= i < |files| ==> files[i] in dir
    requires NoClobber(files, names)
    ensures forall x :: x in Applied(dir, files, names, |files|) <==> (x in dir && x !in files) || x in names
  {
    AppliedKeys(dir, files, names, |files|);
    forall x ensures x in PrefixSet(files, |files|) <==> x in files {
      PrefixSetHas(files, |files|, x);
    }
    forall x ensures x in PrefixSet(names, |names|) <==> x in names {
      PrefixSetHas(names, |names|, x);
    }
  }

  /** Every frame name is itself selected by its pass. */
  lemma FrameNameSelected(pass: Pass, idx: nat, digits: nat)
    ensures Selected(pass, FrameName(idx, digits, Extension(pass)))
  {
    DecimalSpec(idx);
    var stem, ext := "frame" + ZFill(Decimal(idx), digits), Extension(pass);
    assert FrameName(idx, digits, ext) == stem + ext;
    ExtensionPlain(pass);
    if pass == LabelPass {
      EndsWithLower(stem, ext);
    } else {
      SplitextAt(stem, ext);
      assert ext in ImageExtensions;
    }
  }

  /** The extensions are lower-case and hold no digits. */
  lemma ExtensionPlain(pass: Pass)
    ensures NoDigits(Extension(pass)) && LowerStr(Extension(pass)) == Extension(pass)
  {
    assert LowerStr(Extension(pass)) == [Lower(Extension(pass)[0])] + LowerStr(Extension(pass)[1..]);
  }

  /** The files come in natural order. */
  lemma FilesSorted(pass: Pass, listing: seq<string>)
    ensures SortedBy(Files(pass, listing), NaturalLe)
  {
    SelectSorted(pass, SortNatural(listing), NaturalLe);
  }

  lemma {:induction false} AppliedSameNames<C>(dir: map<string, C>, files: seq<string>, k: nat)
    requires k <= |files|
    requires Distinct(files) && forall i :: 0 <= i < |files| ==> files[i] in dir
    ensures Applied(dir, files, files, k) == dir
  {
    if k > 0 {
      AppliedSameNames(dir, files, k - 1);
    }
  }

  /** The position of a name in a list that holds it. */
  ghost function IndexOf(names: seq<string>, x: string): (i: nat)
    requires x in names
    ensures i < |names| && names[i] == x
  {
    var i :| 0 <= i < |names| && names[i] == x; i
  }

  lemma FrameNumbersIncrease(i: nat, j: nat, digits: nat, ext: string, x: string, y: string)
    requires NoDigits(ext) && LowerStr(ext) == ext
    requires x == FrameName(i, digits, ext) && y == FrameName(j, digits, ext)
    requires NaturalLe(x, y) && x != y
    ensures i < j
  {
    FrameNameOrder(i, j, digits, ext);
  }

  /** Distinct frame names listed in natural order, covering frame 0 to
      frame n-1, are exactly frame 0, frame 1, ..., frame n-1. */
  lemma SortedFramesInOrder(pass: Pass, files: seq<string>, n: nat)
    requires Distinct(files) && SortedBy(files, NaturalLe)
    requires forall x :: x in files <==> x in Names(pass, n)
    ensures files == Names(pass, n)
  {
    var names := Names(pass, n);
    var ids := FrameIds(pass, files, n);
    FrameIdsIncrease(pass, files, n, ids);
    RangeIdentity(ids, n);
    assert forall k :: 0 <= k < n ==> files[k] == names[k];
  }

  /** The frame number of each file. */
  lemma FrameIds(pass: Pass, files: seq<string>, n: nat) returns (ids: seq<int>)
    requires forall x :: x in files <==> x in Names(pass, n)
    ensures |ids| == |files|
    ensures forall k :: 0 <= k < |ids| ==> 0 <= ids[k] < n && files[k] == Names(pass, n)[ids[k]]
    ensures forall v :: 0 <= v < n ==> v in ids
  {
    var names := Names(pass, n);
    forall a, b | 0 <= a < b < n ensures names[a] != names[b] {
      FrameNamesDistinct(a, b, Digits(n), Extension(pass));
    }
    ids := seq(|files|, k requires 0 <= k < |files| => IndexOf(names, files[k]));
    forall v | 0 <= v < n ensures v in ids {
      assert names[v] in files;
      var p :| 0 <= p < |files| && files[p] == names[v];
      assert ids[p] == v;
    }
  }

  lemma FrameIdsIncrease(pass: Pass, files: seq<string>, n: nat, ids: seq<int>)
    requires Distinct(files) && SortedBy(files, NaturalLe)
    requires |ids| == |files|
    requires forall k :: 0 <= k < |ids| ==> 0 <= ids[k] < n && files[k] == Names(pass, n)[ids[k]]
    ensures forall a, b :: 0 <= a < b < |ids| ==> ids[a] < ids[b]
  {
    ExtensionPlain(pass);
    forall a, b | 0 <= a < b < |ids| ensures ids[a] < ids[b] {
      FrameNumbersIncrease(ids[a], ids[b], Digits(n), Extension(pass), files[a], files[b]);
    }
  }

  /** A strictly increasing list that covers 0..n-1 within that range is 0..n-1. */
  lemma RangeIdentity(ids: seq<int>, n: nat)
    requires forall a, b :: 0 <= a < b < |ids| ==> ids[a] < ids[b]
    requires forall k :: 0 <= k < |ids| ==> 0 <= ids[k] < n
    requires forall v :: 0 <= v < n ==> v in ids
    ensures |ids| == n && forall k :: 0 <= k < n ==> ids[k] == k
  {
    forall k | 0 <= k < |ids| ensures ids[k] == k {
      IdentityAt(ids, n, k);
    }
    if |ids| > 0 {
      assert ids[|ids| - 1] < n;
    }
    if n > 0 {
      assert n - 1 in ids;
      var p :| 0 <= p < |ids| && ids[p] == n - 1;
    }
  }

  /** Running a pass again over a directory whose selected entries are
      already frame 0 .. frame n-1 renames nothing: every file already bears
      its new name and the directory comes out unchanged. */
  lemma SecondRunRenamesNothing<C>(pass: Pass, dir: map<string, C>, listing: seq<string>, n: nat)
    requires IsListing(listing, dir)
    requires forall x :: x in dir && Selected(pass, x) <==> x in Names(pass, n)
    ensures Files(pass, listing) == Names(pass, n)
    ensures RenamedFiles(pass, dir, listing) == dir
  {
    var files := Files(pass, listing);
    FilesOfListing(pass, listing, dir);
    FilesSorted(pass, listing);
    SortedFramesInOrder(pass, files, n);
    AppliedSameNames(dir, files, |files|);
  }

  /** A selected file that already bears the frame name of an earlier file
      is overwritten. With "b.txt" (content 1) and "frame0.txt" (content 2),
      "b.txt" sorts first and becomes "frame0.txt", replacing it; that file is
      then renamed on to "frame1.txt", and content 2 is gone. */
  lemma OverwriteLosesLabel(dir: map<string, int>, listing: seq<string>)
    requires dir == map["b.txt" := 1, "frame0.txt" := 2] && listing == ["frame0.txt", "b.txt"]
    ensures IsListing(listing, dir)
    ensures RenamedFiles(LabelPass, dir, listing) == map["frame1.txt" := 1]
  {
    ExampleListing(dir, listing);
    var files, names := ["b.txt", "frame0.txt"], ["frame0.txt", "frame1.txt"];
    assert Files(LabelPass, listing) == files by { ExampleFiles(listing); }
    assert Names(LabelPass, 2) == names by { ExampleNames(); }
    RenamedFilesVia(LabelPass, dir, listing, files);
    ExampleApplied(dir, files, names);
  }

  /** `RenamedFiles` is the fold of the renames over the selected files. */
  lemma RenamedFilesVia<C>(pass: Pass, dir: map<string, C>, listing: seq<string>, files: seq<string>)
    requires IsListing(listing, dir) && Files(pass, listing) == files
    ensures Distinct(files) && forall i :: 0 <= i < |files| ==> files[i] in dir
    ensures RenamedFiles(pass, dir, listing) == Applied(dir, files, Names(pass, |files|), |files|)
  {
    FilesOfListing(pass, listing, dir);
  }

  lemma ExampleListing(dir: map<string, int>, listing: seq<string>)
    requires dir == map["b.txt" := 1, "frame0.txt" := 2] && listing == ["frame0.txt", "b.txt"]
    ensures IsListing(listing, dir)
  {
  }

  lemma ExampleFiles(listing: seq<string>)
    requires listing == ["frame0.txt", "b.txt"]
    ensures Files(LabelPass, listing) == ["b.txt", "frame0.txt"]
  {
    var sorted := SortNatural(listing);
    assert sorted == ["b.txt", "frame0.txt"] by { ExampleSorted(); }
    assert Selected(LabelPass, sorted[0]) && Selected(LabelPass, sorted[1]) by { ExampleSelected(); }
    SelectTwo(LabelPass, sorted[0], sorted[1]);
  }

  lemma ExampleApplied(dir: map<string, int>, files: seq<string>, names: seq<string>)
    requires dir == map["b.txt" := 1, "frame0.txt" := 2]
    requires files == ["b.txt", "frame0.txt"] && names == ["frame0.txt", "frame1.txt"]
    ensures Applied(dir, files, names, 2) == map["frame1.txt" := 1]
  {
    assert Applied(dir, files, names, 1) == Move(dir, "b.txt", "frame0.txt") == map["frame0.txt" := 1];
  }

  lemma ExampleSelected()
    ensures IsLabelFile("b.txt") && IsLabelFile("frame0.txt")
  {
    FrameZero();
    FrameNameSelected(LabelPass, 0, 1);
    LowerB();
  }

  lemma LowerB()
    ensures LowerStr("b.txt") == "b.txt"
  {
  }

  lemma FrameZero()
    ensures FrameName(0, 1, ".txt") == "frame0.txt"
  {
  }

  lemma FrameOne()
    ensures FrameName(1, 1, ".txt") == "frame1.txt"
  {
  }

  lemma DigitsOfTwo()
    ensures Digits(2) == 1
  {
  }

  lemma KeyOfB()
    ensures NaturalKey("b.txt") == [Word("b.txt")]
  {
    assert NoDigits("b.txt") by {
      assert forall i :: 0 <= i < 5 ==> "b.txt"[i] in {'b', '.', 't', 'x'};
    }
    RunsNoDigitPrefix("b.txt", "");
    assert "b.txt" + "" == "b.txt";
    assert NaturalKey("b.txt") == [TokenOf("b.txt")];
    LowerB();
  }

  lemma ExampleOrder()
    ensures !NaturalLe("frame0.txt", "b.txt")
  {
    ExtensionPlain(LabelPass);
    FrameZero();
    FrameNameKey(0, 1, ".txt");
    KeyOfB();
    assert TokenLt(Word("b.txt"), Word("frame"));
  }

  lemma ExampleSorted()
    ensures SortNatural(["frame0.txt", "b.txt"]) == ["b.txt", "frame0.txt"]
  {
    ExampleOrder();
    var listing := ["frame0.txt", "b.txt"];
    assert listing[..1] == ["frame0.txt"];
    assert SortBy(listing[..1], NaturalLe) == ["frame0.txt"];
  }

  lemma ExampleNames()
    ensures Names(LabelPass, 2) == ["frame0.txt", "frame1.txt"]
  {
    DigitsOfTwo();
    FrameZero();
    FrameOne();
  }
}
