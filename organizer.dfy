/**
 * The two passes of the organizer: provisioning the destination folders, and
 * walking the top-level entries of the target directory, moving each file into
 * the folder its age or its type selects.
 *
 * Each pass is a method over the `Disk` proved equal to a recursive
 * specification function (`Provision`, `Organize`) over the initial tree; the
 * lemmas below state what those functions guarantee.
 */
module Organizer {
  import opened Wrappers
  import opened FileSystem
  import opened Classification

  /**
   * Which operating-system calls raise, by file name: reading the modification
   * time (`stat` or the timestamp conversion), the move into the archive, and
   * the move by type.
   */
  datatype Faults = Faults(statFails: set<string>, archiveMoveFails: set<string>, typeMoveFails: set<string>)

  /** The tree after a pass, and the name whose operation raised and ended the pass, if any. */
  datatype Outcome = Outcome(tree: Tree, raised: Option<string>)

  predicate Distinct(s: seq<string>) {
    forall i, j :: 0 <= i < j < |s| ==> s[i] != s[j]
  }

  // ----------------------------------------------------------------------
  // Provisioning the destination folders

  /** Create each folder in order; the first `mkdir` that raises ends the pass. */
  function Provision(t: Tree, folders: seq<string>, mkdirFails: set<string>): (r: Outcome)
    ensures r.raised.Some? ==> r.raised.value in folders
    ensures forall p :: p in t ==> p in r.tree && r.tree[p] == t[p]
    decreases |folders|
  {
    if folders == [] then Outcome(t, None)
    else match MakeFolder(t, folders[0], folders[0] in mkdirFails)
      case None => Outcome(t, Some(folders[0]))
      case Some(t') => Provision(t', folders[1..], mkdirFails)
  }

  /** `setup_directories`: one `mkdir(parents=True, exist_ok=True)` per destination folder. */
  method SetupDirectories(disk: Disk, table: CategoryTable, mkdirFails: set<string>) returns (raised: Option<string>)
    modifies disk
    ensures Outcome(disk.tree, raised) == Provision(old(disk.tree), AllFolders(table), mkdirFails)
  {
    var allFolders := AllFolders(table);
    for i := 0 to |allFolders|
      invariant Provision(old(disk.tree), allFolders, mkdirFails) == Provision(disk.tree, allFolders[i..], mkdirFails)
    {
      assert allFolders[i..][1..] == allFolders[i + 1..];
      var ok := disk.Mkdir(allFolders[i], allFolders[i] in mkdirFails);
      if !ok {
        return Some(allFolders[i]);
      }
    }
    assert allFolders[|allFolders|..] == [];
    return None;
  }

  /** A folder can be provisioned when it is already a directory, or is absent and its creation does not fail. */
  predicate FolderCreatable(t: Tree, f: string, mkdirFails: set<string>) {
    if [f] in t then t[[f]] == Dir else f !in mkdirFails
  }

  /** Provisioning raises exactly when some folder name is taken by a file or cannot be created. */
  lemma {:induction false} ProvisionSucceedsIff(t: Tree, folders: seq<string>, mkdirFails: set<string>)
    ensures Provision(t, folders, mkdirFails).raised == None <==>
      forall f :: f in folders ==> FolderCreatable(t, f, mkdirFails)
    decreases |folders|
  {
    if folders != [] {
      var f0 := folders[0];
      match MakeFolder(t, f0, f0 in mkdirFails)
      case None =>
        assert !FolderCreatable(t, f0, mkdirFails);
      case Some(t1) =>
        ProvisionSucceedsIff(t1, folders[1..], mkdirFails);
        forall f | f in folders
          ensures FolderCreatable(t, f, mkdirFails) <==> (f == f0 || FolderCreatable(t1, f, mkdirFails))
        {
          if f != f0 {
            assert [f] != [f0];
          }
        }
        assert forall f :: f in folders <==> f == f0 || f in folders[1..];
    }
  }

  /** A successful provisioning adds exactly the listed folders, as directories, and changes nothing that existed. */
  lemma {:induction false} ProvisionCreatesFolders(t: Tree, folders: seq<string>, mkdirFails: set<string>)
    requires Provision(t, folders, mkdirFails).raised == None
    ensures var r := Provision(t, folders, mkdirFails).tree;
      && r.Keys == t.Keys + (set f | f in folders :: [f])
      && (forall p :: p in t ==> r[p] == t[p])
      && (forall f :: f in folders ==> IsDirAt(r, [f]))
    decreases |folders|
  {
    if folders != [] {
      var f0 := folders[0];
      var t1 := MakeFolder(t, f0, f0 in mkdirFails).value;
      ProvisionCreatesFolders(t1, folders[1..], mkdirFails);
      var r := Provision(t, folders, mkdirFails).tree;
      assert r == Provision(t1, folders[1..], mkdirFails).tree;
      assert (set f | f in folders :: [f]) == {[f0]} + (set f | f in folders[1..] :: [f]) by {
        assert forall f :: f in folders <==> f == f0 || f in folders[1..];
      }
      forall f | f in folders
        ensures IsDirAt(r, [f])
      {
        if f == f0 {
          assert [f0] in t1;
        } else {
          assert f in folders[1..];
        }
      }
    } else {
      assert (set f | f in folders :: [f]) == {};
    }
  }

  /** A successful `mkdir` changes for no folder name whether it can be provisioned. */
  lemma MakeFolderKeepsCreatable(t: Tree, f0: string, mkdirFails: set<string>)
    requires MakeFolder(t, f0, f0 in mkdirFails).Some?
    ensures var t1 := MakeFolder(t, f0, f0 in mkdirFails).value;
      forall f :: FolderCreatable(t1, f, mkdirFails) <==> FolderCreatable(t, f, mkdirFails)
  {
    var t1 := MakeFolder(t, f0, f0 in mkdirFails).value;
    forall f ensures FolderCreatable(t1, f, mkdirFails) <==> FolderCreatable(t, f, mkdirFails) {
      if f != f0 {
        assert [f] != [f0];
      }
    }
  }

  /**
   * A provisioning that raises reports the first folder that cannot be
   * provisioned; every folder before it could be.
   */
  lemma {:induction false} ProvisionRaisesAtFirstFailure(t: Tree, folders: seq<string>, mkdirFails: set<string>)
    requires Provision(t, folders, mkdirFails).raised.Some?
    ensures exists k ::
      && 0 <= k < |folders|
      && Provision(t, folders, mkdirFails).raised == Some(folders[k])
      && !FolderCreatable(t, folders[k], mkdirFails)
      && forall j :: 0 <= j < k ==> FolderCreatable(t, folders[j], mkdirFails)
    decreases |folders|
  {
    var f0 := folders[0];
    match MakeFolder(t, f0, f0 in mkdirFails)
    case None =>
      assert Provision(t, folders, mkdirFails).raised == Some(folders[0]);
    case Some(t1) =>
      var rest := folders[1..];
      ProvisionRaisesAtFirstFailure(t1, rest, mkdirFails);
      MakeFolderKeepsCreatable(t, f0, mkdirFails);
      var k :| 0 <= k < |rest| && Provision(t1, rest, mkdirFails).raised == Some(rest[k])
        && !FolderCreatable(t1, rest[k], mkdirFails)
        && forall j :: 0 <= j < k ==> FolderCreatable(t1, rest[j], mkdirFails);
      assert folders[k + 1] == rest[k];
      forall j | 0 <= j < k + 1 ensures FolderCreatable(t, folders[j], mkdirFails) {
        if j > 0 {
          assert folders[j] == rest[j - 1];
        }
      }
  }

  /**
   * When folder `k` is the first that cannot be provisioned, provisioning
   * raises there, after creating exactly the folders before it as directories.
   */
  lemma {:induction false} ProvisionCreatesFoldersBeforeFailure(t: Tree, folders: seq<string>, mkdirFails: set<string>, k: int)
    requires 0 <= k < |folders|
    requires !FolderCreatable(t, folders[k], mkdirFails)
    requires forall j :: 0 <= j < k ==> FolderCreatable(t, folders[j], mkdirFails)
    ensures var r := Provision(t, folders, mkdirFails);
      && r.raised == Some(folders[k])
      && r.tree.Keys == t.Keys + (set f | f in folders[..k] :: [f])
      && forall f :: f in folders[..k] ==> IsDirAt(r.tree, [f])
    decreases k
  {
    var f0 := folders[0];
    if k == 0 {
      assert (set f | f in folders[..0] :: [f]) == {};
    } else {
      assert FolderCreatable(t, f0, mkdirFails);
      var t1 := MakeFolder(t, f0, f0 in mkdirFails).value;
      var rest := folders[1..];
      MakeFolderKeepsCreatable(t, f0, mkdirFails);
      assert rest[k - 1] == folders[k];
      forall j | 0 <= j < k - 1 ensures FolderCreatable(t1, rest[j], mkdirFails) {
        assert rest[j] == folders[j + 1];
      }
      ProvisionCreatesFoldersBeforeFailure(t1, rest, mkdirFails, k - 1);
      var r := Provision(t1, rest, mkdirFails);
      assert Provision(t, folders, mkdirFails) == r;
      FolderPathsOfPrefix(folders, k);
    }
  }

  /** The top-level paths of the first `k` folders: the first folder's and those of the next `k - 1`. */
  lemma FolderPathsOfPrefix(folders: seq<string>, k: int)
    requires 0 < k <= |folders|
    ensures (set f | f in folders[..k] :: [f]) == {[folders[0]]} + (set f | f in folders[1..][..k - 1] :: [f])
  {
    assert folders[..k] == [folders[0]] + folders[1..][..k - 1];
  }

  /** When every folder is already a directory, provisioning changes nothing and does not raise. */
  lemma {:induction false} ProvisionOfExistingFoldersIsNoop(t: Tree, folders: seq<string>, mkdirFails: set<string>)
    requires forall f :: f in folders ==> IsDirAt(t, [f])
    ensures Provision(t, folders, mkdirFails) == Outcome(t, None)
    decreases |folders|
  {
    if folders != [] {
      assert folders[0] in folders;
      assert MakeFolder(t, folders[0], folders[0] in mkdirFails) == Some(t);
      assert forall f :: f in folders[1..] ==> f in folders;
      ProvisionOfExistingFoldersIsNoop(t, folders[1..], mkdirFails);
    }
  }

  /** Provisioning twice gives the same tree as provisioning once, and the second run does not raise. */
  lemma ProvisionIsIdempotent(t: Tree, folders: seq<string>, fails1: set<string>, fails2: set<string>)
    requires Provision(t, folders, fails1).raised == None
    ensures var r := Provision(t, folders, fails1).tree;
      Provision(r, folders, fails2) == Outcome(r, None)
  {
    ProvisionCreatesFolders(t, folders, fails1);
    ProvisionOfExistingFoldersIsNoop(Provision(t, folders, fails1).tree, folders, fails2);
  }

  // ----------------------------------------------------------------------
  // Classifying and moving one entry

  /**
   * The `try` block: read the modification time and, for an old file, move it
   * into the archive. `None` when the time could not be read, the file is not
   * old, or the archive move raised; in each case the entry goes on to the type
   * move.
   */
  function ArchiveAttempt(t: Tree, name: string, now: int, faults: Faults): (r: Option<Tree>)
    ensures r.Some? <==>
      && [name] in t && t[[name]].File? && name !in faults.statFails
      && IsOld(t[[name]].mtime, now)
      && name !in faults.archiveMoveFails && IsDirAt(t, [OLD_FILES])
    ensures r.Some? ==> [name] !in r.value && [OLD_FILES, name] in r.value && r.value[[OLD_FILES, name]] == t[[name]]
  {
    assert [OLD_FILES, name][..1] == [OLD_FILES];
    match Stat(t, [name], name in faults.statFails)
    case None => None
    case Some(mtime) =>
      if IsOld(mtime, now) then MoveFile(t, [name], [OLD_FILES, name], name in faults.archiveMoveFails)
      else None
  }

  /**
   * One iteration of the loop over the entries: a directory is skipped, an old
   * file is archived, and any other file is moved by type. `None` means the type
   * move raised, which nothing catches.
   */
  function Step(table: CategoryTable, t: Tree, name: string, now: int, faults: Faults): (r: Option<Tree>)
    ensures IsDirAt(t, [name]) ==> r == Some(t)
    ensures r.None? ==> !IsDirAt(t, [name]) && ArchiveAttempt(t, name, now, faults).None?
    ensures r.Some? && !IsDirAt(t, [name]) ==> [name] !in r.value
  {
    if IsDirAt(t, [name]) then Some(t)
    else match ArchiveAttempt(t, name, now, faults)
      case Some(t') => Some(t')
      case None => MoveFile(t, [name], [TypeDestination(table, name), name], name in faults.typeMoveFails)
  }

  /** The folder a file entry ends up in when its step succeeds: always one of the provisioned folders. */
  function Destination(table: CategoryTable, t: Tree, name: string, now: int, faults: Faults): (d: string)
    ensures d in AllFolders(table)
  {
    if ArchiveAttempt(t, name, now, faults).Some? then OLD_FILES else TypeDestination(table, name)
  }

  /** A directory entry is neither moved nor renamed, and nothing else changes. */
  lemma DirectoryIsSkipped(table: CategoryTable, t: Tree, name: string, now: int, faults: Faults)
    requires IsDirAt(t, [name])
    ensures Step(table, t, name, now, faults) == Some(t)
  {
  }

  /**
   * An old file whose time can be read and whose archive move succeeds goes to
   * the archive, whatever its extension: the step does not depend on the table.
   */
  lemma OldFileIsArchived(table1: CategoryTable, table2: CategoryTable, t: Tree, name: string, now: int, faults: Faults)
    requires [name] in t && t[[name]].File? && IsOld(t[[name]].mtime, now)
    requires name !in faults.statFails && name !in faults.archiveMoveFails && IsDirAt(t, [OLD_FILES])
    ensures Destination(table1, t, name, now, faults) == OLD_FILES
    ensures Step(table1, t, name, now, faults) == Step(table2, t, name, now, faults)
    ensures Step(table1, t, name, now, faults) == MoveFile(t, [name], [OLD_FILES, name], false)
  {
    assert [OLD_FILES, name][..1] == [OLD_FILES];
  }

  /**
   * A file that is not old, whose time cannot be read, or whose archive move
   * raises, is moved by type instead; it is not lost.
   */
  lemma AgeCheckFailureFallsThrough(table: CategoryTable, t: Tree, name: string, now: int, faults: Faults)
    requires [name] in t && t[[name]].File?
    requires || !IsOld(t[[name]].mtime, now)
             || name in faults.statFails
             || name in faults.archiveMoveFails
             || !IsDirAt(t, [OLD_FILES])
    ensures Destination(table, t, name, now, faults) == TypeDestination(table, name)
    ensures Step(table, t, name, now, faults) ==
      MoveFile(t, [name], [TypeDestination(table, name), name], name in faults.typeMoveFails)
  {
    assert [OLD_FILES, name][..1] == [OLD_FILES];
  }

  /** A file modified exactly at the threshold is not archived. */
  lemma ThresholdFileIsNotArchived(table: CategoryTable, t: Tree, name: string, now: int, faults: Faults)
    requires [name] in t && t[[name]] == File(ArchiveThreshold(now))
    ensures Destination(table, t, name, now, faults) == TypeDestination(table, name)
  {
  }

  /** The step raises only when an entry that is not a directory reaches the type move and that move fails. */
  lemma StepRaisesOnlyOnTypeMove(table: CategoryTable, t: Tree, name: string, now: int, faults: Faults)
    ensures Step(table, t, name, now, faults).None? <==>
      && !IsDirAt(t, [name])
      && ArchiveAttempt(t, name, now, faults).None?
      && !CanMove(t, [name], [TypeDestination(table, name), name], name in faults.typeMoveFails)
  {
  }

  /** A successful step leaves the file under its destination folder with its own name. */
  lemma StepPlacesFile(table: CategoryTable, t: Tree, name: string, now: int, faults: Faults)
    requires [name] in t && t[[name]].File?
    requires Step(table, t, name, now, faults).Some?
    ensures var t' := Step(table, t, name, now, faults).value;
      var d := Destination(table, t, name, now, faults);
      && [name] !in t'
      && [d, name] in t' && t'[[d, name]] == t[[name]]
  {
    var d := Destination(table, t, name, now, faults);
    assert [name] != [d, name];
  }

  /** The paths a step on `name` may change: the entry itself and `<folder>/<name>`. */
  predicate Touches(p: Path, name: string) {
    p == [name] || (|p| == 2 && p[1] == name)
  }

  /** A step changes no path but the entry and its destination. */
  lemma StepFrame(table: CategoryTable, t: Tree, name: string, now: int, faults: Faults)
    requires Step(table, t, name, now, faults).Some?
    ensures var t' := Step(table, t, name, now, faults).value;
      var d := Destination(table, t, name, now, faults);
      forall p :: p != [name] && p != [d, name] ==> (p in t' <==> p in t) && (p in t ==> t'[p] == t[p])
  {
  }

  /**
   * The move replaces a file already at `<destination>/<name>`, as a rename does:
   * here an older `Documents/a.pdf` is gone after `a.pdf` is filed.
   */
  lemma PreviousFileAtDestinationIsReplaced(now: int)
    ensures var t := map[["a.pdf"] := File(now), ["Documents"] := Dir, ["Documents", "a.pdf"] := File(now - 1)];
      Step(FILE_CATEGORIES, t, "a.pdf", now, Faults({}, {}, {})) ==
        Some(map[["Documents"] := Dir, ["Documents", "a.pdf"] := File(now)])
  {
    var name := "a.pdf";
    SuffixAt(name, 1);
    assert Lower(".pdf") == ".pdf";
    FirstListingCategoryWins(FILE_CATEGORIES, name, 1);
    var t := map[["a.pdf"] := File(now), ["Documents"] := Dir, ["Documents", "a.pdf"] := File(now - 1)];
    assert ["Documents", "a.pdf"][..1] == ["Documents"];
    assert ["a.pdf"] != ["Documents"];
    var t' := MoveFile(t, [name], ["Documents", name], false).value;
    assert t' == map[["Documents"] := Dir, ["Documents", "a.pdf"] := File(now)];
  }

  /** A step neither removes nor creates a directory at the top level. */
  lemma StepKeepsTopLevelDirectories(table: CategoryTable, t: Tree, name: string, now: int, faults: Faults)
    requires Step(table, t, name, now, faults).Some?
    ensures var t' := Step(table, t, name, now, faults).value;
      forall p :: |p| == 1 ==> (IsDirAt(t', p) <==> IsDirAt(t, p))
  {
    var t' := Step(table, t, name, now, faults).value;
    forall p | |p| == 1
      ensures IsDirAt(t', p) <==> IsDirAt(t, p)
    {
      if !IsDirAt(t, [name]) {
        var d := Destination(table, t, name, now, faults);
        assert p != [d, name];
      }
    }
  }

  /** The destination of an entry depends only on the entry itself and on whether the archive folder is a directory. */
  lemma DestinationIsLocal(table: CategoryTable, t: Tree, t': Tree, name: string, now: int, faults: Faults)
    requires ([name] in t' <==> [name] in t) && ([name] in t ==> t'[[name]] == t[[name]])
    requires IsDirAt(t', [OLD_FILES]) <==> IsDirAt(t, [OLD_FILES])
    ensures Destination(table, t', name, now, faults) == Destination(table, t, name, now, faults)
  {
    assert [OLD_FILES, name][..1] == [OLD_FILES];
  }

  // ----------------------------------------------------------------------
  // The pass over the directory

  /** Process the entries in order; an entry whose type move raises ends the pass. */
  function Organize(table: CategoryTable, t: Tree, listing: seq<string>, now: int, faults: Faults): (r: Outcome)
    ensures r.raised.Some? ==> r.raised.value in listing
    decreases |listing|
  {
    if listing == [] then Outcome(t, None)
    else match Step(table, t, listing[0], now, faults)
      case None => Outcome(t, Some(listing[0]))
      case Some(t') => Organize(table, t', listing[1..], now, faults)
  }

  /**
   * `file_organization`: `listing` is what `iterdir()` returned and `now` the
   * clock reading; the result names the entry whose type move raised.
   */
  method FileOrganization(disk: Disk, table: CategoryTable, now: int, listing: seq<string>, faults: Faults)
    returns (raised: Option<string>)
    modifies disk
    ensures Outcome(disk.tree, raised) == Organize(table, old(disk.tree), listing, now, faults)
  {
    for i := 0 to |listing|
      invariant Organize(table, old(disk.tree), listing, now, faults) == Organize(table, disk.tree, listing[i..], now, faults)
    {
      var filename := listing[i];
      assert listing[i..][1..] == listing[i + 1..];
      var isDir := disk.IsDir([filename]);
      if isDir {
        continue;
      }
      var mtime := disk.StatMtime([filename], filename in faults.statFails);
      if mtime.Some? && IsOld(mtime.value, now) {
        var archived := disk.Move([filename], [OLD_FILES, filename], filename in faults.archiveMoveFails);
        if archived {
          continue;
        }
      }
      var destFolder := TypeDestination(table, filename);
      var moved := disk.Move([filename], [destFolder, filename], filename in faults.typeMoveFails);
      if !moved {
        return Some(filename);
      }
    }
    assert listing[|listing|..] == [];
    return None;
  }

  /** Top-level directories are never moved or renamed, and the pass creates none. */
  lemma {:induction false} PassKeepsTopLevelDirectories(table: CategoryTable, t: Tree, listing: seq<string>, now: int, faults: Faults)
    ensures var r := Organize(table, t, listing, now, faults).tree;
      forall p :: |p| == 1 ==> (IsDirAt(r, p) <==> IsDirAt(t, p))
    decreases |listing|
  {
    if listing != [] {
      var step := Step(table, t, listing[0], now, faults);
      if step.Some? {
        StepKeepsTopLevelDirectories(table, t, listing[0], now, faults);
        PassKeepsTopLevelDirectories(table, step.value, listing[1..], now, faults);
      }
    }
  }

  /** A path is out of reach of the pass when no listed entry may change it. */
  predicate Untouched(p: Path, listing: seq<string>) {
    forall n :: n in listing ==> !Touches(p, n)
  }

  /** The pass changes no path but the listed entries and their destinations. */
  lemma {:induction false} PassFrame(table: CategoryTable, t: Tree, listing: seq<string>, now: int, faults: Faults)
    ensures var r := Organize(table, t, listing, now, faults).tree;
      forall p :: Untouched(p, listing) ==> (p in r <==> p in t) && (p in t ==> r[p] == t[p])
    decreases |listing|
  {
    if listing != [] {
      var step := Step(table, t, listing[0], now, faults);
      if step.Some? {
        StepFrame(table, t, listing[0], now, faults);
        PassFrame(table, step.value, listing[1..], now, faults);
        forall p | Untouched(p, listing)
          ensures Untouched(p, listing[1..]) && !Touches(p, listing[0])
        {
          assert listing[0] in listing;
          assert forall n :: n in listing[1..] ==> n in listing;
        }
      }
    }
  }

  /**
   * When the pass completes, every listed file has left the top level and sits,
   * under its own name, in the folder chosen for it.
   */
  lemma {:induction false} CompletedPassPlacesEveryFile(table: CategoryTable, t: Tree, listing: seq<string>, now: int, faults: Faults, i: int)
    requires Distinct(listing)
    requires Organize(table, t, listing, now, faults).raised == None
    requires 0 <= i < |listing| && [listing[i]] in t && t[[listing[i]]].File?
    ensures var r := Organize(table, t, listing, now, faults).tree;
      var n := listing[i];
      var d := Destination(table, t, n, now, faults);
      && [n] !in r
      && [d, n] in r && r[[d, n]] == t[[n]]
    decreases |listing|
  {
    var x := listing[0];
    var t1 := Step(table, t, x, now, faults).value;
    var rest := listing[1..];
    var r := Organize(table, t, listing, now, faults).tree;
    assert r == Organize(table, t1, rest, now, faults).tree;
    assert x !in rest by {
      forall j | 0 <= j < |rest| ensures rest[j] != x {
        assert rest[j] == listing[j + 1];
      }
    }
    if i == 0 {
      var d := Destination(table, t, x, now, faults);
      StepPlacesFile(table, t, x, now, faults);
      PassFrame(table, t1, rest, now, faults);
      assert Untouched([x], rest);
      assert Untouched([d, x], rest);
    } else {
      var n := listing[i];
      assert n == rest[i - 1];
      assert n != x;
      StepFrame(table, t, x, now, faults);
      assert !Touches([n], x);
      StepKeepsTopLevelDirectories(table, t, x, now, faults);
      assert IsDirAt(t1, [OLD_FILES]) <==> IsDirAt(t, [OLD_FILES]);
      DestinationIsLocal(table, t, t1, n, now, faults);
      assert Distinct(rest);
      CompletedPassPlacesEveryFile(table, t1, rest, now, faults, i - 1);
    }
  }

  /** Both trees agree at `p`. */
  ghost predicate SameAt(a: Tree, b: Tree, p: Path) {
    (p in a <==> p in b) && (p in b ==> a[p] == b[p])
  }

  /** Both trees agree at `<folder>/<name>` for every folder other than `d`. */
  ghost predicate OtherFoldersAgree(a: Tree, b: Tree, name: string, d: string) {
    forall p :: |p| == 2 && p[1] == name && p[0] != d ==> SameAt(a, b, p)
  }

  /**
   * No listed file is copied into a second folder: over distinct names, the only
   * path `<folder>/<name>` the pass writes for an entry is the one under its
   * destination, whether or not the pass completes.
   */
  lemma {:induction false} PassWritesOnlyTheDestination(table: CategoryTable, t: Tree, listing: seq<string>, now: int, faults: Faults, i: int)
    requires Distinct(listing)
    requires 0 <= i < |listing|
    ensures OtherFoldersAgree(Organize(table, t, listing, now, faults).tree, t, listing[i], Destination(table, t, listing[i], now, faults))
    decreases |listing|
  {
    var x := listing[0];
    var rest := listing[1..];
    assert x !in rest by {
      forall j | 0 <= j < |rest| ensures rest[j] != x {
        assert rest[j] == listing[j + 1];
      }
    }
    var step := Step(table, t, x, now, faults);
    if step.Some? {
      if i == 0 {
        FirstEntryWritesOnlyItsDestination(table, t, x, rest, now, faults);
      } else {
        assert listing[i] == rest[i - 1] && listing[i] != x;
        assert Distinct(rest);
        PassWritesOnlyTheDestination(table, step.value, rest, now, faults, i - 1);
        LaterEntryKeepsDestination(table, t, x, listing[i], now, faults);
      }
    }
  }

  /** The case of the first entry: its step writes only its destination, and the rest of the pass never touches its name. */
  lemma FirstEntryWritesOnlyItsDestination(table: CategoryTable, t: Tree, x: string, rest: seq<string>, now: int, faults: Faults)
    requires Step(table, t, x, now, faults).Some?
    requires x !in rest
    ensures OtherFoldersAgree(Organize(table, Step(table, t, x, now, faults).value, rest, now, faults).tree, t, x, Destination(table, t, x, now, faults))
  {
    var t1 := Step(table, t, x, now, faults).value;
    var r := Organize(table, t1, rest, now, faults).tree;
    var d := Destination(table, t, x, now, faults);
    StepFrame(table, t, x, now, faults);
    PassFrame(table, t1, rest, now, faults);
    forall p | |p| == 2 && p[1] == x && p[0] != d
      ensures SameAt(r, t, p)
    {
      assert p != [d, x] && p != [x];
      assert Untouched(p, rest);
    }
  }

  /** The case of a later entry: the first step neither changes its destination nor any `<folder>/<name>` for it. */
  lemma LaterEntryKeepsDestination(table: CategoryTable, t: Tree, x: string, n: string, now: int, faults: Faults)
    requires Step(table, t, x, now, faults).Some?
    requires n != x
    ensures var t1 := Step(table, t, x, now, faults).value;
      && Destination(table, t1, n, now, faults) == Destination(table, t, n, now, faults)
      && forall r: Tree :: OtherFoldersAgree(r, t1, n, Destination(table, t, n, now, faults)) ==>
           OtherFoldersAgree(r, t, n, Destination(table, t, n, now, faults))
  {
    var t1 := Step(table, t, x, now, faults).value;
    var dx := Destination(table, t, x, now, faults);
    StepFrame(table, t, x, now, faults);
    StepKeepsTopLevelDirectories(table, t, x, now, faults);
    assert IsDirAt(t1, [OLD_FILES]) <==> IsDirAt(t, [OLD_FILES]);
    assert [n] != [x] && [n] != [dx, x];
    DestinationIsLocal(table, t, t1, n, now, faults);
    forall p | |p| == 2 && p[1] == n
      ensures SameAt(t1, t, p)
    {
      assert p != [x] && p != [dx, x];
    }
  }

  /**
   * A type move that raises ends the whole pass: the entries after it are
   * never looked at, and the tree is the one reached just before it.
   */
  lemma {:induction false} FailedTypeMoveEndsPass(table: CategoryTable, t: Tree, pre: seq<string>, x: string, post: seq<string>, now: int, faults: Faults)
    requires Organize(table, t, pre, now, faults).raised == None
    requires Step(table, Organize(table, t, pre, now, faults).tree, x, now, faults).None?
    ensures Organize(table, t, pre + [x] + post, now, faults) == Outcome(Organize(table, t, pre, now, faults).tree, Some(x))
    decreases |pre|
  {
    var l := pre + [x] + post;
    if pre != [] {
      var step := Step(table, t, pre[0], now, faults);
      assert step.Some?;
      var t1 := step.value;
      assert Organize(table, t, pre, now, faults) == Organize(table, t1, pre[1..], now, faults);
      assert l[0] == pre[0] && l[1..] == pre[1..] + [x] + post;
      FailedTypeMoveEndsPass(table, t1, pre[1..], x, post, now, faults);
      assert Organize(table, t, l, now, faults) == Organize(table, t1, l[1..], now, faults);
    } else {
      assert l[0] == x;
    }
  }

  /** The entry whose move raised is a listed one, and it is still at the top level, unchanged. */
  lemma {:induction false} RaisedFileStaysInPlace(table: CategoryTable, t: Tree, listing: seq<string>, now: int, faults: Faults)
    requires Distinct(listing)
    requires Organize(table, t, listing, now, faults).raised.Some?
    ensures var out := Organize(table, t, listing, now, faults);
      var n := out.raised.value;
      && n in listing
      && ([n] in t ==> [n] in out.tree && out.tree[[n]] == t[[n]])
    decreases |listing|
  {
    var x := listing[0];
    var step := Step(table, t, x, now, faults);
    if step.Some? {
      var rest := listing[1..];
      assert Distinct(rest);
      RaisedFileStaysInPlace(table, step.value, rest, now, faults);
      var n := Organize(table, t, listing, now, faults).raised.value;
      assert n in rest;
      assert n != x by {
        var j :| 0 <= j < |rest| && rest[j] == n;
        assert listing[j + 1] == n;
      }
      StepFrame(table, t, x, now, faults);
      assert !Touches([n], x);
    }
  }

  /**
   * With every destination folder provisioned, a pass over entries that exist at
   * the top level raises only if an operating-system fault hits a type move.
   */
  lemma {:induction false} ProvisionedPassCompletes(table: CategoryTable, t: Tree, listing: seq<string>, now: int, faults: Faults)
    requires forall f :: f in AllFolders(table) ==> IsDirAt(t, [f])
    requires Distinct(listing)
    requires forall n :: n in listing ==> [n] in t && n !in faults.typeMoveFails
    ensures Organize(table, t, listing, now, faults).raised == None
    decreases |listing|
  {
    if listing != [] {
      var x := listing[0];
      var d := TypeDestination(table, x);
      assert x in listing;
      assert [d, x][..1] == [d];
      assert Step(table, t, x, now, faults).Some?;
      var t1 := Step(table, t, x, now, faults).value;
      var rest := listing[1..];
      StepKeepsTopLevelDirectories(table, t, x, now, faults);
      forall f | f in AllFolders(table) ensures IsDirAt(t1, [f]) {
        assert IsDirAt(t, [f]);
      }
      StepFrame(table, t, x, now, faults);
      forall n | n in rest ensures [n] in t1 && n !in faults.typeMoveFails {
        var j :| 0 <= j < |rest| && rest[j] == n;
        assert listing[j + 1] == n;
        assert !Touches([n], x);
      }
      assert Distinct(rest);
      ProvisionedPassCompletes(table, t1, rest, now, faults);
    }
  }

  /**
   * The two passes together: after provisioning succeeds, a pass without type
   * move faults completes and files every listed file under a provisioned folder.
   */
  lemma SetupThenOrganize(table: CategoryTable, t: Tree, mkdirFails: set<string>, listing: seq<string>, now: int, faults: Faults, i: int)
    requires Provision(t, AllFolders(table), mkdirFails).raised == None
    requires Distinct(listing)
    requires forall n :: n in listing ==> ([n] in t || n in AllFolders(table)) && n !in faults.typeMoveFails
    requires 0 <= i < |listing| && [listing[i]] in t && t[[listing[i]]].File?
    ensures var t1 := Provision(t, AllFolders(table), mkdirFails).tree;
      var out := Organize(table, t1, listing, now, faults);
      var n := listing[i];
      var d := Destination(table, t1, n, now, faults);
      && out.raised == None
      && d in AllFolders(table)
      && [n] !in out.tree && [d, n] in out.tree && out.tree[[d, n]] == t[[n]]
  {
    var t1 := Provision(t, AllFolders(table), mkdirFails).tree;
    ProvisionCreatesFolders(t, AllFolders(table), mkdirFails);
    forall n | n in listing ensures [n] in t1 && n !in faults.typeMoveFails {
    }
    assert listing[i] in listing;
    ProvisionedPassCompletes(table, t1, listing, now, faults);
    CompletedPassPlacesEveryFile(table, t1, listing, now, faults, i);
  }
}
