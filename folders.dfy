/** The top level of both renaming scripts (rename_labels.py:7-17, 34-42 and
    yolo2coco.py:7-17, 36-44): the numbered folders under the root are renamed
    from `dataNN` to `videoN`, then every `videoN` folder is visited and its
    files renamed. The root is a map from entry name to entry; a folder holds
    its own entries as a map from name to content. An exception that ends the
    script is `None`. */
module Folders {
  import opened Text
  import opened Sorting
  import opened Naming
  import opened Renames

  datatype Node<C> = Folder(entries: map<string, C>) | Plain(content: C)

  type Root<C> = map<string, Node<C>>

  /** x is present in both maps with the same entry, or in neither. */
  ghost predicate SameAt<K, V>(a: map<K, V>, b: map<K, V>, x: K) {
    (x in a <==> x in b) && (x in a ==> a[x] == b[x])
  }

  /** `os.rename` of a root entry on POSIX: a free target name just receives
      the entry; a file replaces a file and a folder replaces an empty folder;
      any other clash raises. */
  function RenameEntry<C>(root: Root<C>, from: string, to: string): (r: Option<Root<C>>)
    requires from in root && from != to
    ensures r.Some? <==> to !in root || (root[from].Plain? && root[to].Plain?) || (root[from].Folder? && root[to] == Folder(map[]))
    ensures r.Some? ==> forall x :: x in r.value <==> x == to || (x in root && x != from)
    ensures r.Some? ==> r.value[to] == root[from]
    ensures r.Some? ==> forall x :: x != from && x != to ==> SameAt(root, r.value, x)
  {
    if to !in root then Some(Move(root, from, to))
    else match (root[from], root[to])
      case (Plain(_), Plain(_)) => Some(Move(root, from, to))
      case (Folder(_), Folder(e)) => if e == map[] then Some(Move(root, from, to)) else None
      case _ => None
  }

  /** The root after the first k iterations of `rename_subdirs`. */
  function SubdirsRenamed<C>(root: Root<C>, k: nat): Option<Root<C>>
    requires k <= 26
  {
    if k == 0 then Some(root)
    else match SubdirsRenamed(root, k - 1)
      case None => None
      case Some(m) =>
        FolderNamesDistinct(k, k);
        if OldFolderName(k) in m then RenameEntry(m, OldFolderName(k), NewFolderName(k)) else Some(m)
  }

  /** `rename_subdirs`: i runs over 1..26; an existing `dataNN` is renamed. */
  method RenameSubdirs<C>(root: Root<C>) returns (r: Option<Root<C>>)
    ensures r == SubdirsRenamed(root, 26)
  {
    var current := root;
    for i := 1 to 27
      invariant SubdirsRenamed(root, i - 1) == Some(current)
    {
      var oldName, newName := OldFolderName(i), NewFolderName(i);
      FolderNamesDistinct(i, i);
      if oldName in current {
        var next := RenameEntry(current, oldName, newName);
        if next.None? {
          SubdirsFailurePersists(root, i, 26);
          return None;
        }
        current := next.value;
      }
    }
    return Some(current);
  }

  /** The names `rename_subdirs` may read or write. */
  ghost predicate Reserved(x: string) {
    exists i :: 1 <= i <= 26 && (x == OldFolderName(i) || x == NewFolderName(i))
  }

  /** Folders 1..k are renamed: `dataNN` is gone and `videoN` holds what it held. */
  ghost predicate DoneUpTo<C>(root: Root<C>, m: Root<C>, k: nat) {
    forall i :: 1 <= i <= k ==>
      && OldFolderName(i) !in m
      && (NewFolderName(i) in m <==> OldFolderName(i) in root)
      && (OldFolderName(i) in root ==> m[NewFolderName(i)] == root[OldFolderName(i)])
  }

  /** Folders after k are not yet touched. */
  ghost predicate PendingFrom<C>(root: Root<C>, m: Root<C>, k: nat) {
    forall i :: k < i <= 26 ==> SameAt(root, m, OldFolderName(i)) && SameAt(root, m, NewFolderName(i))
  }

  /** No other name is touched. */
  ghost predicate OthersSame<C>(root: Root<C>, m: Root<C>) {
    forall x :: !Reserved(x) ==> SameAt(root, m, x)
  }

  /** The new names of the first k folders are free. */
  ghost predicate TargetsFree<C>(root: Root<C>, k: nat) {
    forall j :: 1 <= j <= k ==> NewFolderName(j) !in root
  }

  /** While the new names are free, the first k iterations rename exactly the
      folders 1..k and touch nothing else. */
  lemma {:induction false} SubdirsInvariant<C>(root: Root<C>, k: nat)
    requires k <= 26 && TargetsFree(root, k)
    ensures SubdirsRenamed(root, k).Some?
    ensures DoneUpTo(root, SubdirsRenamed(root, k).value, k)
    ensures PendingFrom(root, SubdirsRenamed(root, k).value, k)
    ensures OthersSame(root, SubdirsRenamed(root, k).value)
  {
    if k > 0 {
      SubdirsInvariant(root, k - 1);
      var m := SubdirsRenamed(root, k - 1).value;
      FolderNamesDistinct(k, k);
      assert SameAt(root, m, OldFolderName(k)) && SameAt(root, m, NewFolderName(k));
      assert SubdirsRenamed(root, k).Some?;
      var next := SubdirsRenamed(root, k).value;
      assert StepResult(m, next, k);
      StepDone(root, m, next, k);
      StepPending(root, m, next, k);
      StepOthers(root, m, next, k);
    }
  }

  /** What one step (renaming folder k, or finding it absent) needs of the new state. */
  ghost predicate StepResult<C>(m: Root<C>, next: Root<C>, k: nat) {
    && (OldFolderName(k) in m ==>
         && (forall x :: x in next <==> x == NewFolderName(k) || (x in m && x != OldFolderName(k)))
         && next[NewFolderName(k)] == m[OldFolderName(k)]
         && forall x :: x != OldFolderName(k) && x != NewFolderName(k) ==> SameAt(m, next, x))
    && (OldFolderName(k) !in m ==> next == m)
  }

  lemma StepDone<C>(root: Root<C>, m: Root<C>, next: Root<C>, k: nat)
    requires 1 <= k <= 26 && DoneUpTo(root, m, k - 1)
    requires SameAt(root, m, OldFolderName(k)) && NewFolderName(k) !in m
    requires StepResult(m, next, k)
    ensures DoneUpTo(root, next, k)
  {
    forall i | 1 <= i <= k
      ensures OldFolderName(i) !in next
      ensures NewFolderName(i) in next <==> OldFolderName(i) in root
      ensures OldFolderName(i) in root ==> next[NewFolderName(i)] == root[OldFolderName(i)]
    {
      FolderNamesDistinct(i, k);
      FolderNamesDistinct(k, i);
      if i < k && OldFolderName(k) in m {
        assert SameAt(m, next, OldFolderName(i)) && SameAt(m, next, NewFolderName(i));
      }
    }
  }

  lemma StepPending<C>(root: Root<C>, m: Root<C>, next: Root<C>, k: nat)
    requires 1 <= k <= 26 && PendingFrom(root, m, k - 1)
    requires StepResult(m, next, k)
    ensures PendingFrom(root, next, k)
  {
    forall i | k < i <= 26
      ensures SameAt(root, next, OldFolderName(i)) && SameAt(root, next, NewFolderName(i))
    {
      FolderNamesDistinct(i, k);
      FolderNamesDistinct(k, i);
      assert SameAt(root, m, OldFolderName(i)) && SameAt(root, m, NewFolderName(i));
      if OldFolderName(k) in m {
        assert SameAt(m, next, OldFolderName(i)) && SameAt(m, next, NewFolderName(i));
      }
    }
  }

  lemma StepOthers<C>(root: Root<C>, m: Root<C>, next: Root<C>, k: nat)
    requires 1 <= k <= 26 && OthersSame(root, m)
    requires StepResult(m, next, k)
    ensures OthersSame(root, next)
  {
    forall x | !Reserved(x) ensures SameAt(root, next, x) {
      assert x != OldFolderName(k) && x != NewFolderName(k);
      assert SameAt(root, m, x);
      if OldFolderName(k) in m {
        assert SameAt(m, next, x);
      }
    }
  }

  /** When no `videoN` exists yet, `rename_subdirs` succeeds: every `dataNN`
      present becomes `videoN` with the same entry, the `dataNN` names are
      gone, `videoN` exists exactly when `dataNN` did, and nothing else
      changes. */
  lemma SubdirsRenamedContents<C>(root: Root<C>)
    requires TargetsFree(root, 26)
    ensures SubdirsRenamed(root, 26).Some?
    ensures forall i :: 1 <= i <= 26 ==>
      && OldFolderName(i) !in SubdirsRenamed(root, 26).value
      && (NewFolderName(i) in SubdirsRenamed(root, 26).value <==> OldFolderName(i) in root)
    ensures forall i :: 1 <= i <= 26 && OldFolderName(i) in root ==>
      SubdirsRenamed(root, 26).value[NewFolderName(i)] == root[OldFolderName(i)]
    ensures forall x :: !Reserved(x) ==> SameAt(root, SubdirsRenamed(root, 26).value, x)
  {
    SubdirsInvariant(root, 26);
  }

  /** A failed rename ends the script: no later iteration recovers. */
  lemma {:induction false} SubdirsFailurePersists<C>(root: Root<C>, i: nat, k: nat)
    requires i <= k <= 26 && SubdirsRenamed(root, i).None?
    ensures SubdirsRenamed(root, k).None?
    decreases k
  {
    if i < k {
      SubdirsFailurePersists(root, i, k - 1);
    }
  }

  /** If `dataNN` and `videoN` both exist (the earlier new names being free)
      and the rename clashes — a non-empty folder, or a file and a folder —
      `rename_subdirs` raises. */
  lemma SubdirsClash<C>(root: Root<C>, i: nat)
    requires 1 <= i <= 26 && TargetsFree(root, i - 1)
    requires OldFolderName(i) in root && NewFolderName(i) in root
    requires !(root[OldFolderName(i)].Plain? && root[NewFolderName(i)].Plain?)
    requires !(root[OldFolderName(i)].Folder? && root[NewFolderName(i)] == Folder(map[]))
    ensures SubdirsRenamed(root, 26).None?
  {
    SubdirsInvariant(root, i - 1);
    var m := SubdirsRenamed(root, i - 1).value;
    assert SameAt(root, m, OldFolderName(i)) && SameAt(root, m, NewFolderName(i));
    FolderNamesDistinct(i, i);
    SubdirsFailurePersists(root, i, 26);
  }

  /** The root after `main`'s loop has visited `video1` .. `videok`: a missing
      folder is skipped, a file in its place makes `os.listdir` raise, and a
      folder has its files renamed. */
  function Visited<C(!new)>(pass: Pass, root: Root<C>, listdir: map<string, C> -> seq<string>, k: nat): Option<Root<C>>
    requires forall d :: IsListing(listdir(d), d)
  {
    if k == 0 then Some(root)
    else match Visited(pass, root, listdir, k - 1)
      case None => None
      case Some(m) =>
        if NewFolderName(k) !in m then Some(m)
        else match m[NewFolderName(k)]
          case Plain(_) => None
          case Folder(e) => Some(m[NewFolderName(k) := Folder(RenamedFiles(pass, e, listdir(e)))])
  }

  /** What `main` leaves behind, or `None` when it raises. */
  function Processed<C(!new)>(pass: Pass, root: Root<C>, listdir: map<string, C> -> seq<string>): Option<Root<C>>
    requires forall d :: IsListing(listdir(d), d)
  {
    match SubdirsRenamed(root, 26)
    case None => None
    case Some(m) => Visited(pass, m, listdir, 26)
  }

  /** `main` (rename_labels.py:34-42 with the label pass, yolo2coco.py:36-44
      with the image pass). `listdir` stands for `os.listdir`: the order in
      which a folder with the given entries is listed. */
  method RenameAll<C(!new)>(pass: Pass, root: Root<C>, listdir: map<string, C> -> seq<string>) returns (r: Option<Root<C>>)
    requires forall d :: IsListing(listdir(d), d)
    ensures r == Processed(pass, root, listdir)
  {
    var renamed := RenameSubdirs(root);
    if renamed.None? {
      return None;
    }
    var current := renamed.value;
    for i := 1 to 27
      invariant Visited(pass, renamed.value, listdir, i - 1) == Some(current)
    {
      var name := NewFolderName(i);
      if name !in current {
        continue;
      }
      match current[name]
      case Plain(_) =>
        VisitedFailurePersists(pass, renamed.value, listdir, i, 26);
        return None;
      case Folder(entries) =>
        var entries' := RenameFilesInDir(pass, entries, listdir(entries));
        current := current[name := Folder(entries')];
    }
    return Some(current);
  }

  /** A failed visit ends the script: no later iteration recovers. */
  lemma {:induction false} VisitedFailurePersists<C(!new)>(pass: Pass, root: Root<C>, listdir: map<string, C> -> seq<string>, i: nat, k: nat)
    requires forall d :: IsListing(listdir(d), d)
    requires i <= k && Visited(pass, root, listdir, i).None?
    ensures Visited(pass, root, listdir, k).None?
    decreases k
  {
    if i < k {
      VisitedFailurePersists(pass, root, listdir, i, k - 1);
    }
  }

  /** x is one of `video1` .. `videok`. */
  ghost predicate VisitedName(x: string, k: nat) {
    exists i :: 1 <= i <= k && x == NewFolderName(i)
  }

  /** Visiting fails exactly when one of `video1` .. `videok` is a file. */
  lemma {:induction false} VisitedFails<C(!new)>(pass: Pass, root: Root<C>, listdir: map<string, C> -> seq<string>, k: nat)
    requires forall d :: IsListing(listdir(d), d)
    ensures Visited(pass, root, listdir, k).None? <==>
      exists i :: 1 <= i <= k && NewFolderName(i) in root && root[NewFolderName(i)].Plain?
  {
    if k > 0 {
      VisitedFails(pass, root, listdir, k - 1);
      var prev := Visited(pass, root, listdir, k - 1);
      if prev.Some? {
        VisitedFrame(pass, root, listdir, k - 1);
        assert !VisitedName(NewFolderName(k), k - 1) by {
          forall i | 1 <= i <= k - 1 ensures NewFolderName(k) != NewFolderName(i) {
            NewFolderNamesDiffer(k, i);
          }
        }
        assert SameAt(root, prev.value, NewFolderName(k));
      }
    }
  }

  /** A successful visit keeps every name, and changes no entry but
      `video1` .. `videok`. */
  lemma {:induction false} VisitedFrame<C(!new)>(pass: Pass, root: Root<C>, listdir: map<string, C> -> seq<string>, k: nat)
    requires forall d :: IsListing(listdir(d), d)
    requires Visited(pass, root, listdir, k).Some?
    ensures forall x :: x in Visited(pass, root, listdir, k).value <==> x in root
    ensures forall x :: !VisitedName(x, k) ==> SameAt(root, Visited(pass, root, listdir, k).value, x)
  {
    if k > 0 {
      VisitedFrame(pass, root, listdir, k - 1);
      forall x | !VisitedName(x, k) ensures !VisitedName(x, k - 1) && x != NewFolderName(k) {
        VisitedNameGrows(x, k - 1, k);
      }
    }
  }

  /** A successful visit renames the files of each folder `videoi`, i <= k,
      once, from the entries it held before. */
  lemma {:induction false} VisitedFolders<C(!new)>(pass: Pass, root: Root<C>, listdir: map<string, C> -> seq<string>, k: nat)
    requires forall d :: IsListing(listdir(d), d)
    requires Visited(pass, root, listdir, k).Some?
    ensures forall i :: 1 <= i <= k && NewFolderName(i) in root ==>
      && root[NewFolderName(i)].Folder?
      && NewFolderName(i) in Visited(pass, root, listdir, k).value
      && Visited(pass, root, listdir, k).value[NewFolderName(i)]
         == Folder(RenamedFiles(pass, root[NewFolderName(i)].entries, listdir(root[NewFolderName(i)].entries)))
  {
    if k > 0 {
      VisitedFolders(pass, root, listdir, k - 1);
      var m := Visited(pass, root, listdir, k - 1).value;
      VisitedFrame(pass, root, listdir, k - 1);
      assert !VisitedName(NewFolderName(k), k - 1) by {
        forall i | 1 <= i <= k - 1 ensures NewFolderName(k) != NewFolderName(i) {
          NewFolderNamesDiffer(k, i);
        }
      }
      assert SameAt(root, m, NewFolderName(k));
      forall i | 1 <= i < k && NewFolderName(i) in root ensures NewFolderName(i) != NewFolderName(k) {
        NewFolderNamesDiffer(i, k);
      }
    }
  }

  /** `main` on a root with folders `dataNN` and no `videoN`: it succeeds,
      every `dataNN` becomes `videoN` with its files renamed, and every name
      outside the `dataNN`/`videoN` ones keeps its entry. */
  lemma ProcessedContents<C(!new)>(pass: Pass, root: Root<C>, listdir: map<string, C> -> seq<string>)
    requires forall d :: IsListing(listdir(d), d)
    requires TargetsFree(root, 26)
    requires forall i :: 1 <= i <= 26 && OldFolderName(i) in root ==> root[OldFolderName(i)].Folder?
    ensures Processed(pass, root, listdir).Some?
    ensures forall i :: 1 <= i <= 26 ==>
      && OldFolderName(i) !in Processed(pass, root, listdir).value
      && (NewFolderName(i) in Processed(pass, root, listdir).value <==> OldFolderName(i) in root)
    ensures forall i :: 1 <= i <= 26 && OldFolderName(i) in root ==>
      Processed(pass, root, listdir).value[NewFolderName(i)]
        == Folder(RenamedFiles(pass, root[OldFolderName(i)].entries, listdir(root[OldFolderName(i)].entries)))
    ensures forall x :: !Reserved(x) ==> SameAt(root, Processed(pass, root, listdir).value, x)
  {
    SubdirsRenamedContents(root);
    var m := SubdirsRenamed(root, 26).value;
    VisitedFails(pass, m, listdir, 26);
    assert Visited(pass, m, listdir, 26).Some?;
    VisitedFrame(pass, m, listdir, 26);
    VisitedFolders(pass, m, listdir, 26);
    var r := Visited(pass, m, listdir, 26).value;
    forall i | 1 <= i <= 26 ensures OldFolderName(i) !in r {
      assert OldFolderName(i) !in m;
    }
    forall x | !Reserved(x) ensures SameAt(root, r, x) {
      VisitedNameReserved(x);
    }
  }

  lemma VisitedNameGrows(x: string, j: nat, k: nat)
    requires j <= k
    ensures VisitedName(x, j) ==> VisitedName(x, k)
    ensures x == NewFolderName(k) && 1 <= k ==> VisitedName(x, k)
  {
  }

  lemma VisitedNameReserved(x: string)
    ensures VisitedName(x, 26) ==> Reserved(x)
  {
  }
}
