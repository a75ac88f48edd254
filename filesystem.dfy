/**
 * An abstract view of the directory being organized. Every path is relative to
 * the target directory (the empty path is the target itself, which is taken to
 * exist), and the tree maps each existing path to what is stored there.
 * The `Disk` class is the filesystem as the organizer sees it: a single mutable
 * tree, changed in place by `mkdir` and `shutil.move`.
 */
module FileSystem {
  import opened Wrappers

  /** A path below the target directory, one string per component. */
  type Path = seq<string>

  /** A directory, or a regular file with its modification time in whole seconds. */
  datatype Node = Dir | File(mtime: int)

  type Tree = map<Path, Node>

  predicate IsDirAt(t: Tree, p: Path) {
    p in t && t[p] == Dir
  }

  /** The folder that would contain `p`; the target directory itself always exists. */
  predicate ParentIsDir(t: Tree, p: Path) {
    |p| == 1 || (|p| > 1 && IsDirAt(t, p[..|p| - 1]))
  }

  /**
   * `(target/name).mkdir(parents=True, exist_ok=True)`: an existing directory is
   * left as it is, an existing file makes it raise, and otherwise the folder is
   * created unless the operating system refuses (`fault`). `None` means it raised.
   */
  function MakeFolder(t: Tree, name: string, fault: bool): (r: Option<Tree>)
    ensures r.Some? <==> (if [name] in t then t[[name]] == Dir else !fault)
    ensures r.Some? ==> IsDirAt(r.value, [name])
    ensures r.Some? ==> r.value.Keys == t.Keys + {[name]}
    ensures r.Some? ==> forall p :: p in t ==> r.value[p] == t[p]
  {
    if [name] in t then
      if t[[name]] == Dir then Some(t) else None
    else if fault then None
    else Some(t[[name] := Dir])
  }

  /**
   * `stat().st_mtime` of a path that `is_dir()` reported not to be a directory:
   * it raises when nothing is there or when the operating system refuses (`fault`).
   */
  function Stat(t: Tree, p: Path, fault: bool): (r: Option<int>)
    ensures r.Some? <==> p in t && t[p].File? && !fault
    ensures r.Some? ==> t[p] == File(r.value)
  {
    if p in t && t[p].File? && !fault then Some(t[p].mtime) else None
  }

  /** When `shutil.move(src, dst)` succeeds: the source exists and the folder `dst` names is a directory. */
  predicate CanMove(t: Tree, src: Path, dst: Path, fault: bool) {
    !fault && src in t && ParentIsDir(t, dst)
  }

  /**
   * `shutil.move(src, dst)` as a rename: the entry leaves `src` and appears at
   * `dst`, replacing whatever was there; on failure nothing changes.
   */
  function MoveFile(t: Tree, src: Path, dst: Path, fault: bool): (r: Option<Tree>)
    ensures r.Some? <==> CanMove(t, src, dst, fault)
    ensures r.Some? && src != dst ==> r.value.Keys == t.Keys - {src} + {dst}
    ensures r.Some? ==> dst in r.value && r.value[dst] == t[src]
    ensures r.Some? ==> forall p :: p in t && p != src && p != dst ==> p in r.value && r.value[p] == t[p]
  {
    if CanMove(t, src, dst, fault) then Some((t - {src})[dst := t[src]]) else None
  }

  /** The filesystem the organizer works on, updated in place. */
  class Disk {
    var tree: Tree

    constructor (initial: Tree)
      ensures tree == initial
    {
      tree := initial;
    }

    /** `Path.is_dir()`: false for a file and for a path where nothing exists. */
    method IsDir(p: Path) returns (b: bool)
      ensures b <==> p in tree && tree[p].Dir?
    {
      b := p in tree && tree[p] == Dir;
    }

    /** `Path.stat().st_mtime`; `None` when it raises. */
    method StatMtime(p: Path, fault: bool) returns (m: Option<int>)
      ensures m == Stat(tree, p, fault)
    {
      if p in tree && tree[p].File? && !fault {
        m := Some(tree[p].mtime);
      } else {
        m := None;
      }
    }

    /** `Path.mkdir(parents=True, exist_ok=True)` for a child of the target; `ok` is false when it raised. */
    method Mkdir(name: string, fault: bool) returns (ok: bool)
      modifies this
      ensures ok == MakeFolder(old(tree), name, fault).Some?
      ensures tree == if ok then MakeFolder(old(tree), name, fault).value else old(tree)
    {
      if [name] in tree {
        ok := tree[[name]] == Dir;
      } else if fault {
        ok := false;
      } else {
        tree := tree[[name] := Dir];
        ok := true;
      }
    }

    /** `shutil.move(src, dst)`; `ok` is false when it raised, and then nothing changed. */
    method Move(src: Path, dst: Path, fault: bool) returns (ok: bool)
      modifies this
      ensures ok == MoveFile(old(tree), src, dst, fault).Some?
      ensures tree == if ok then MoveFile(old(tree), src, dst, fault).value else old(tree)
    {
      ok := CanMove(tree, src, dst, fault);
      if ok {
        tree := (tree - {src})[dst := tree[src]];
      }
    }
  }
}
