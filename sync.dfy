/**
 * asset/sync.go: removing the subdirectories of a site directory that are no
 * longer wanted. Matching is by exact name; plain files are never touched.
 */
module Sync {
  import opened GoStrings
  import opened FileTree

  /** Whether FlushDir leaves an entry in place. */
  predicate Kept(e: Entry, allowed: seq<string>) {
    e.File? || e.name in allowed
  }

  function KeptBy(allowed: seq<string>): Entry -> bool {
    e => Kept(e, allowed)
  }

  /** The listing FlushDir leaves behind: the files, and the allowed directories, in order. */
  function KeepAllowed(l: seq<Entry>, allowed: seq<string>): (r: seq<Entry>)
    ensures forall e :: e in r <==> e in l && Kept(e, allowed)
  {
    Filter(l, KeptBy(allowed))
  }

  /** The tree after FlushDir on the directory at `p`. */
  function FlushDirTree(root: seq<Entry>, p: seq<string>, allowed: seq<string>): seq<Entry> {
    FilterAt(root, p, KeptBy(allowed))
  }

  /**
   * Afterwards the directory holds every file it held, every allowed
   * subdirectory it held, and no other subdirectory.
   */
  lemma FlushDirResult(root: seq<Entry>, p: seq<string>, allowed: seq<string>)
    requires ListDir(root, p).Some?
    ensures var x := ListDir(root, p).value;
      ListDir(FlushDirTree(root, p, allowed), p) == Some(KeepAllowed(x, allowed)) &&
      (forall e :: e in x && e.File? ==> e in KeepAllowed(x, allowed)) &&
      (forall e :: e in x && e.Dir? ==> (e in KeepAllowed(x, allowed) <==> e.name in allowed)) &&
      (forall e :: e in KeepAllowed(x, allowed) && e.Dir? ==> e.name in allowed)
  {
    ListUpdate(root, p, KeepAllowed(ListDir(root, p).value, allowed));
  }

  /** A second FlushDir with the same list removes nothing. */
  lemma FlushDirIdempotent(root: seq<Entry>, p: seq<string>, allowed: seq<string>)
    ensures FlushDirTree(FlushDirTree(root, p, allowed), p, allowed) == FlushDirTree(root, p, allowed)
  {
    FilterAtIdempotent(root, p, KeptBy(allowed));
  }

  /** Whether `name` equals an entry of `allowed`: the inner search of FlushDir. */
  method IsAllowed(name: string, allowed: seq<string>) returns (found: bool)
    ensures found <==> name in allowed
  {
    var j := 0;
    while j < |allowed|
      invariant 0 <= j <= |allowed|
      invariant name !in allowed[..j]
    {
      if allowed[j] == name {
        return true;
      }
      j := j + 1;
    }
    assert allowed[..j] == allowed;
    return false;
  }

  /** One pass of FlushDir's loop: remove `dir` unless it is kept. */
  method FlushEntry(disk: LocalDisk, parent: string, dir: Entry, allowed: seq<string>,
                    ghost root0: seq<Entry>, ghost done: seq<Entry>, ghost rest: seq<Entry>)
    modifies disk
    requires disk.Valid() && ListDir(root0, PathOf(parent)).Some?
    requires disk.root == UpdateDir(root0, PathOf(parent), done + [dir] + rest)
    ensures disk.Valid()
    ensures disk.root == UpdateDir(root0, PathOf(parent), done + (if Kept(dir, allowed) then [dir] else []) + rest)
  {
    KeepMiddle(done, dir, rest, Kept(dir, allowed));
    if dir.Dir? {
      var remove := true;
      var found := IsAllowed(dir.name, allowed);
      if found {
        remove := false;
      }
      if remove {
        WrittenValid(root0, PathOf(parent), done + [dir] + rest);
        MiddleName(done, dir, rest);
        RemoveStep(root0, PathOf(parent), done, dir, rest);
        PathChild(parent, dir.name);
        disk.RemoveAll(parent + "/" + dir.name);
        return;
      }
    }
  }

  /** FlushDir's loop state before and after entry i, as KeepAllowed states it. */
  lemma KeepAllowedProgress(subDirs: seq<Entry>, i: int, allowed: seq<string>)
    requires 0 <= i < |subDirs|
    ensures var done := KeepAllowed(subDirs[..i], allowed); var d := subDirs[i];
      done + subDirs[i..] == done + [d] + subDirs[i + 1..] &&
      KeepAllowed(subDirs[..i + 1], allowed) + subDirs[i + 1..] == done + (if Kept(d, allowed) then [d] else []) + subDirs[i + 1..]
  {
    FilterProgress(subDirs, i, KeptBy(allowed));
  }

  /** asset.FlushDir: remove every subdirectory of `parent` whose name is not allowed. */
  method FlushDir(disk: LocalDisk, parent: string, allowed: seq<string>)
    modifies disk
    requires disk.Valid()
    ensures disk.Valid()
    ensures disk.root == FlushDirTree(old(disk.root), PathOf(parent), allowed)
  {
    ghost var root0 := disk.root;
    ghost var p := PathOf(parent);
    var subDirs := disk.ReadDir(parent);
    if ListDir(root0, p).Some? {
      UpdateSame(root0, p);
    } else {
      UpdateNone(root0, p, subDirs);
    }
    FilterBounds(subDirs, KeptBy(allowed));
    var i := 0;
    while i < |subDirs|
      invariant 0 <= i <= |subDirs|
      invariant disk.Valid()
      invariant ListDir(root0, p).Some? || subDirs == []
      invariant disk.root == UpdateDir(root0, p, KeepAllowed(subDirs[..i], allowed) + subDirs[i..])
    {
      KeepAllowedProgress(subDirs, i, allowed);
      FlushEntry(disk, parent, subDirs[i], allowed, root0, KeepAllowed(subDirs[..i], allowed), subDirs[i + 1..]);
      i := i + 1;
    }
    if ListDir(root0, p).None? {
      UpdateNone(root0, p, KeepAllowed(subDirs, allowed));
    }
  }
}
