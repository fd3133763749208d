/**
 * site/site.go: the layout of the local public site, URL-friendly names, and
 * the removal of files and folders that no longer belong to it.
 */
module Site {
  import opened GoStrings
  import opened FileTree
  import Sync

  const PubSiteDir := "public"
  const SiteDir := "site"
  const CSSStylesDir := "css"
  const JavaScriptDir := "js"
  const ImagesDir := "images"
  const AboutDir := "about"

  // ---- names -----------------------------------------------------------

  /** LowerDash: lower case, every space turned into a dash. */
  function LowerDash(s: string): (r: string)
    ensures |r| == |s|
    ensures forall i :: 0 <= i < |s| ==> r[i] == if s[i] == ' ' then '-' else LowerChar(s[i])
  {
    ReplaceAll(ToLower(s), ' ', '-')
  }

  /** The result has no space and no upper-case ASCII letter, and a second pass changes nothing. */
  lemma LowerDashNormal(s: string)
    ensures var r := LowerDash(s);
      ' ' !in r && (forall i :: 0 <= i < |r| ==> !('A' <= r[i] <= 'Z')) && LowerDash(r) == r
  {
    var r := LowerDash(s);
    forall i | 0 <= i < |r| ensures r[i] != ' ' && !('A' <= r[i] <= 'Z') {
    }
  }

  /** Escape: the lower-dashed input, query-escaped by `queryEscape` (a library call). */
  function Escape(s: string, queryEscape: string -> string): string {
    queryEscape(LowerDash(s))
  }

  /** Escape ignores case and the difference between a space and a dash. */
  lemma EscapeNormal(s: string, queryEscape: string -> string)
    ensures Escape(s, queryEscape) == queryEscape(LowerDash(s))
    ensures Escape(LowerDash(s), queryEscape) == Escape(s, queryEscape)
  {
    LowerDashNormal(s);
  }

  /** The directory, relative to a root, that Flush works on for a collection path. */
  function FullPath(prefix: string, name: string): (r: string)
    ensures HasPrefix(r, "/")
  {
    if prefix != "" then "/" + prefix + "/" + name
    else if name != "" then "/" + name
    else "/"
  }

  /** Whatever the case, the path names the prefix's components followed by the name's. */
  lemma FullPathComponents(prefix: string, name: string)
    ensures PathOf(FullPath(prefix, name)) == PathOf(prefix) + PathOf(name)
  {
    if prefix != "" {
      ConcatAssoc("/", prefix, "/");
      ConcatAssoc("/", prefix + "/", name);
      RootedPath(prefix + "/" + name);
      PathJoin(prefix, name);
    } else if name != "" {
      RootedPath(name);
      PathOfEmpty();
    } else {
      RootedPath("");
      assert "/" == "/" + "";
    }
  }

  // ---- FlushInvalid ----------------------------------------------------

  /** Some key of `valid` is a prefix of `name`. */
  predicate KeyPrefixed(name: string, valid: map<string, bool>) {
    exists key :: key in valid && HasPrefix(name, key)
  }

  /** FlushInvalid keeps a file whose name maps to true, or that starts with some key. */
  predicate KeepFile(name: string, valid: map<string, bool>) {
    (name in valid && valid[name]) || KeyPrefixed(name, valid)
  }

  /** A true-valued key is itself a key prefix, so the keep rule is the prefix rule alone. */
  lemma KeepFileIsPrefixRule(name: string, valid: map<string, bool>)
    ensures KeepFile(name, valid) <==> KeyPrefixed(name, valid)
  {
    if name in valid {
      assert HasPrefix(name, name);
    }
  }

  /** The inner search over the keys, in whatever order the map yields them. */
  method HasKeyPrefix(name: string, valid: map<string, bool>) returns (found: bool)
    ensures found <==> KeyPrefixed(name, valid)
  {
    var keys := valid.Keys;
    while keys != {}
      invariant keys <= valid.Keys
      invariant forall key :: key in valid.Keys - keys ==> !HasPrefix(name, key)
      decreases |keys|
    {
      var key :| key in keys;
      if HasPrefix(name, key) {
        return true;
      }
      keys := keys - {key};
    }
    return false;
  }

  predicate FileKept(e: Entry, valid: map<string, bool>) {
    e.Dir? || KeepFile(e.name, valid)
  }

  function FileKeptBy(valid: map<string, bool>): Entry -> bool {
    e => FileKept(e, valid)
  }

  /** The listing FlushInvalid leaves: every directory, and the files it keeps. */
  function KeepFiles(l: seq<Entry>, valid: map<string, bool>): (r: seq<Entry>)
    ensures forall e :: e in r <==> e in l && FileKept(e, valid)
  {
    Filter(l, FileKeptBy(valid))
  }

  /** The tree after FlushInvalid on the directory at `p`. */
  function FlushInvalidTree(root: seq<Entry>, p: seq<string>, valid: map<string, bool>): seq<Entry> {
    FilterAt(root, p, FileKeptBy(valid))
  }

  /**
   * Only the immediate listing changes: directories stay whole, a file stays
   * exactly when it is kept, and nothing new appears.
   */
  lemma FlushInvalidResult(root: seq<Entry>, p: seq<string>, valid: map<string, bool>)
    requires ListDir(root, p).Some?
    ensures var x := ListDir(root, p).value;
      ListDir(FlushInvalidTree(root, p, valid), p) == Some(KeepFiles(x, valid)) &&
      (forall e :: e in x && e.Dir? ==> e in KeepFiles(x, valid)) &&
      (forall e :: e in x && e.File? ==> (e in KeepFiles(x, valid) <==> KeyPrefixed(e.name, valid)))
  {
    var x := ListDir(root, p).value;
    ListUpdate(root, p, KeepFiles(x, valid));
    forall e | e in x && e.File? ensures e in KeepFiles(x, valid) <==> KeyPrefixed(e.name, valid) {
      KeepFileIsPrefixRule(e.name, valid);
    }
  }

  /** A second call with the same keys removes nothing. */
  lemma FlushInvalidIdempotent(root: seq<Entry>, p: seq<string>, valid: map<string, bool>)
    ensures FlushInvalidTree(FlushInvalidTree(root, p, valid), p, valid) == FlushInvalidTree(root, p, valid)
  {
    FilterAtIdempotent(root, p, FileKeptBy(valid));
  }

  lemma Prefixed(name: string, key: string, valid: map<string, bool>)
    requires key in valid && |key| <= |name| && name[..|key|] == key
    ensures FileKept(File(name, []), valid)
  {
  }

  /** Keys sunset and harbor: of sunset.jpg, sunset_2.jpg, harbor.html and boat.jpg only boat.jpg goes. */
  lemma FlushInvalidExample(valid: map<string, bool>, a: string, b: string, c: string, d: string)
    requires valid == map["sunset" := true, "harbor" := true]
    requires a == "sunset.jpg" && b == "sunset_2.jpg" && c == "harbor.html" && d == "boat.jpg"
    ensures var l := [File(a, []), File(b, []), File(c, []), File(d, [])];
      KeepFiles(l, valid) == l[..3]
  {
    var l := [File(a, []), File(b, []), File(c, []), File(d, [])];
    assert a[..6] == "sunset" && b[..6] == "sunset" && c[..6] == "harbor";
    Prefixed(a, "sunset", valid);
    Prefixed(b, "sunset", valid);
    Prefixed(c, "harbor", valid);
    BoatUnkept(valid, d);
    KeepThree(l, FileKeptBy(valid));
  }

  /** No key of the example is a prefix of boat.jpg. */
  lemma BoatUnkept(valid: map<string, bool>, d: string)
    requires valid == map["sunset" := true, "harbor" := true] && d == "boat.jpg"
    ensures !FileKept(File(d, []), valid)
  {
    assert valid.Keys == {"sunset", "harbor"};
    forall key | key in valid ensures !HasPrefix(d, key) {
      assert key == "sunset" || key == "harbor";
      assert d[..|key|][0] == 'b';
    }
  }

  /** Filtering four entries of which only the last is dropped keeps the first three. */
  lemma KeepThree(l: seq<Entry>, keep: Entry -> bool)
    requires |l| == 4 && keep(l[0]) && keep(l[1]) && keep(l[2]) && !keep(l[3])
    ensures Filter(l, keep) == l[..3]
  {
    assert l[..3] == l[..2] + [l[2]] && l[..2] == l[..1] + [l[1]] && l[..1] == [] + [l[0]];
    assert l == l[..3] + [l[3]];
    FilterSnoc([], l[0], keep);
    FilterSnoc(l[..1], l[1], keep);
    FilterSnoc(l[..2], l[2], keep);
    FilterSnoc(l[..3], l[3], keep);
  }

  /** One pass of FlushInvalid's loop over the listing. */
  method FlushInvalidEntry(disk: LocalDisk, dir: string, f: Entry, valid: map<string, bool>,
                           ghost root0: seq<Entry>, ghost done: seq<Entry>, ghost rest: seq<Entry>)
    modifies disk
    requires disk.Valid() && ListDir(root0, PathOf(dir)).Some?
    requires disk.root == UpdateDir(root0, PathOf(dir), done + [f] + rest)
    ensures disk.Valid()
    ensures disk.root == UpdateDir(root0, PathOf(dir), done + (if FileKept(f, valid) then [f] else []) + rest)
  {
    KeepMiddle(done, f, rest, FileKept(f, valid));
    if f.Dir? {
      return;
    }
    if !(f.name in valid && valid[f.name]) {
      var remove := true;
      var found := HasKeyPrefix(f.name, valid);
      if found {
        remove := false;
      }
      if remove {
        WrittenValid(root0, PathOf(dir), done + [f] + rest);
        MiddleName(done, f, rest);
        RemoveStep(root0, PathOf(dir), done, f, rest);
        PathChild(dir, f.name);
        disk.RemoveAll(dir + "/" + f.name);
        return;
      }
    }
  }

  /** site.FlushInvalid: remove the files of `dir` that no key accounts for. */
  method FlushInvalid(disk: LocalDisk, dir: string, valid: map<string, bool>)
    modifies disk
    requires disk.Valid()
    ensures disk.Valid()
    ensures disk.root == FlushInvalidTree(old(disk.root), PathOf(dir), valid)
  {
    ghost var root0 := disk.root;
    ghost var p := PathOf(dir);
    var files := disk.ReadDir(dir);
    if ListDir(root0, p).Some? {
      UpdateSame(root0, p);
    } else {
      UpdateNone(root0, p, files);
    }
    FilterBounds(files, FileKeptBy(valid));
    var i := 0;
    while i < |files|
      invariant 0 <= i <= |files|
      invariant disk.Valid()
      invariant ListDir(root0, p).Some? || files == []
      invariant disk.root == UpdateDir(root0, p, KeepFiles(files[..i], valid) + files[i..])
    {
      KeepFilesProgress(files, i, valid);
      FlushInvalidEntry(disk, dir, files[i], valid, root0, KeepFiles(files[..i], valid), files[i + 1..]);
      i := i + 1;
    }
    if ListDir(root0, p).None? {
      UpdateNone(root0, p, KeepFiles(files, valid));
    }
  }

  /** FlushInvalid's loop state before and after entry i, as KeepFiles states it. */
  lemma KeepFilesProgress(files: seq<Entry>, i: int, valid: map<string, bool>)
    requires 0 <= i < |files|
    ensures var done := KeepFiles(files[..i], valid); var f := files[i];
      done + files[i..] == done + [f] + files[i + 1..] &&
      KeepFiles(files[..i + 1], valid) + files[i + 1..] == done + (if FileKept(f, valid) then [f] else []) + files[i + 1..]
  {
    FilterProgress(files, i, FileKeptBy(valid));
  }

  // ---- Flush -----------------------------------------------------------

  /** The directories Flush always keeps. */
  const Protected: seq<string> := [ImagesDir, AboutDir, CSSStylesDir, JavaScriptDir]

  /** The names of the directories of a listing, in order. */
  function DirNames(l: seq<Entry>): (r: seq<string>)
    ensures forall n :: n in r <==> exists e :: e in l && e.Dir? && e.name == n
    decreases |l|
  {
    if l == [] then []
    else
      var init := l[..|l| - 1];
      var e := l[|l| - 1];
      Snoc(l);
      DirNames(init) + (if e.Dir? then [e.name] else [])
  }

  /** The site directory Flush inspects for a collection path. */
  function SitePath(prefix: string, name: string): string {
    PubSiteDir + LowerDash(FullPath(prefix, name))
  }

  /**
   * site.Flush as written: the second listing (of the site directory) is
   * stored where the source listing was, so the directory names of the site
   * listing are protected, and the removal loop (site/site.go:68-85) runs
   * over `siteDirs`, which is never assigned and so is empty: its body never
   * executes, the method has no loop for it, and the disk is only read.
   */
  method Flush(disk: LocalDisk, sourceLocation: string, prefix: string, name: string)
    returns (protectedSubDirs: seq<string>)
    ensures protectedSubDirs == Protected + DirNames(disk.ReadDir(SitePath(prefix, name)))
  {
    var fullPath := FullPath(prefix, name);
    var sourceDirs := disk.ReadDir(sourceLocation + fullPath);
    sourceDirs := disk.ReadDir(PubSiteDir + LowerDash(fullPath));
    protectedSubDirs := CollectDirNames(sourceDirs);
  }

  /** Append the names of the directories of a listing to the fixed four. */
  method CollectDirNames(dirs: seq<Entry>) returns (protectedSubDirs: seq<string>)
    ensures protectedSubDirs == Protected + DirNames(dirs)
  {
    protectedSubDirs := Protected;
    var i := 0;
    while i < |dirs|
      invariant 0 <= i <= |dirs|
      invariant protectedSubDirs == Protected + DirNames(dirs[..i])
    {
      assert dirs[..i + 1] == dirs[..i] + [dirs[i]];
      assert dirs[..i + 1][..i] == dirs[..i];
      if dirs[i].Dir? {
        protectedSubDirs := protectedSubDirs + [dirs[i].name];
      }
      i := i + 1;
    }
    assert dirs[..i] == dirs;
  }

  /** The listing of the source directory for a collection path, or none. */
  function SourceDirs(root: seq<Entry>, sourceLocation: string, prefix: string, name: string): seq<Entry> {
    match ListDir(root, PathOf(sourceLocation + FullPath(prefix, name)))
      case Some(x) => x
      case None => []
  }

  /** The protected names the evidently intended Flush uses: the fixed four and the source directories. */
  function IntendedProtected(root: seq<Entry>, sourceLocation: string, prefix: string, name: string): seq<string> {
    Protected + DirNames(SourceDirs(root, sourceLocation, prefix, name))
  }

  /**
   * Flush as evidently intended: list the source directory and the site
   * directory separately, and remove every site subdirectory that is neither
   * one of the fixed four nor a source directory.
   */
  method FlushIntended(disk: LocalDisk, sourceLocation: string, prefix: string, name: string)
    returns (protectedSubDirs: seq<string>)
    modifies disk
    requires disk.Valid()
    ensures disk.Valid()
    ensures protectedSubDirs == IntendedProtected(old(disk.root), sourceLocation, prefix, name)
    ensures disk.root == Sync.FlushDirTree(old(disk.root), PathOf(SitePath(prefix, name)), protectedSubDirs)
  {
    var fullPath := FullPath(prefix, name);
    var sourceDirs := disk.ReadDir(sourceLocation + fullPath);
    protectedSubDirs := CollectDirNames(sourceDirs);
    Sync.FlushDir(disk, PubSiteDir + LowerDash(fullPath), protectedSubDirs);
  }

  /**
   * After the intended Flush, a site subdirectory remains exactly when it is
   * one of the fixed four or has the name of a source directory.
   */
  lemma FlushIntendedResult(root: seq<Entry>, sourceLocation: string, prefix: string, name: string, e: Entry)
    requires ListDir(root, PathOf(SitePath(prefix, name))).Some?
    requires e in ListDir(root, PathOf(SitePath(prefix, name))).value && e.Dir?
    ensures var p := PathOf(SitePath(prefix, name));
      var after := Sync.FlushDirTree(root, p, IntendedProtected(root, sourceLocation, prefix, name));
      ListDir(after, p).Some? &&
      (e in ListDir(after, p).value <==> e.name in Protected || e.name in DirNames(SourceDirs(root, sourceLocation, prefix, name)))
  {
    var p := PathOf(SitePath(prefix, name));
    var prot := IntendedProtected(root, sourceLocation, prefix, name);
    Sync.FlushDirResult(root, p, prot);
  }

  /**
   * A stale collection folder: the source has only "sunset", the site has
   * "sunset" and "old". The intended Flush removes "old", so it changes the
   * disk, while Flush as written only reads it.
   */
  lemma FlushStaleExample(root: seq<Entry>, sourceLocation: string, prefix: string, name: string)
    requires ListDir(root, PathOf(sourceLocation + FullPath(prefix, name))) == Some([Dir("sunset", [])])
    requires ListDir(root, PathOf(SitePath(prefix, name))) == Some([Dir("sunset", []), Dir("old", [])])
    ensures var p := PathOf(SitePath(prefix, name));
      var after := Sync.FlushDirTree(root, p, IntendedProtected(root, sourceLocation, prefix, name));
      after != root && ListDir(after, p) == Some([Dir("sunset", [])])
  {
    var p := PathOf(SitePath(prefix, name));
    var prot := IntendedProtected(root, sourceLocation, prefix, name);
    assert SourceDirs(root, sourceLocation, prefix, name) == [Dir("sunset", [])];
    OneDirName("sunset");
    StaleRemoved(prot);
    Sync.FlushDirResult(root, p, prot);
  }

  lemma OneDirName(n: string)
    ensures DirNames([Dir(n, [])]) == [n]
  {
    assert [Dir(n, [])][..0] == [];
  }

  lemma StaleRemoved(prot: seq<string>)
    requires prot == Protected + ["sunset"]
    ensures Sync.KeepAllowed([Dir("sunset", []), Dir("old", [])], prot) == [Dir("sunset", [])]
  {
    assert prot[|prot| - 1] == "sunset";
    assert "old" !in prot;
    KeepFirstOnly(Dir("sunset", []), Dir("old", []), prot);
  }

  /** Of two directories, only the allowed one is kept. */
  lemma KeepFirstOnly(a: Entry, b: Entry, allowed: seq<string>)
    requires a.Dir? && a.name in allowed && b.Dir? && b.name !in allowed
    ensures Sync.KeepAllowed([a, b], allowed) == [a]
  {
    var keep := Sync.KeptBy(allowed);
    assert [a, b] == [a] + [b] && [a] == [] + [a];
    FilterSnoc([], a, keep);
    FilterSnoc([a], b, keep);
  }

  // ---- scaffold copy -------------------------------------------------

  /** copyScaffoldDir leaves a file alone iff its destination was read and hashes like the source. */
  predicate SkipCopy(inBytes: Bytes, outRead: Option<Bytes>, hash: Bytes -> string) {
    outRead.Some? && hash(inBytes) == hash(outRead.value)
  }

  /** The bytes written for `n`: the read error is ignored, so an unreadable source reads as empty. */
  function SourceBytes(root: seq<Entry>, inP: seq<string>, n: string): Bytes {
    match ReadFileAt(root, inP + [n])
      case Some(d) => d
      case None => []
  }

  /** One file of the copy, on the destination listing (creating over a directory fails). */
  function CopyOne(y: seq<Entry>, n: string, data: Bytes, hash: Bytes -> string): seq<Entry> {
    if SkipCopy(data, FileIn(y, n), hash) || DirIn(y, n) then y else SetEntry(y, File(n, data))
  }

  /** The destination listing after copying the names `ns` in order. */
  function CopyAll(y: seq<Entry>, ns: seq<string>, root: seq<Entry>, inP: seq<string>, hash: Bytes -> string): seq<Entry>
    decreases |ns|
  {
    if ns == [] then y
    else CopyAll(CopyOne(y, ns[0], SourceBytes(root, inP, ns[0]), hash), ns[1..], root, inP, hash)
  }

  function ListingAt(root: seq<Entry>, p: seq<string>): seq<Entry> {
    match ListDir(root, p)
      case Some(x) => x
      case None => []
  }

  /**
   * The tree after copying every entry listed at `listP` from `inP` to
   * `outP`; nothing changes when the destination directory is missing.
   */
  function CopyTree(root: seq<Entry>, listP: seq<string>, inP: seq<string>, outP: seq<string>, hash: Bytes -> string): seq<Entry> {
    match ListDir(root, outP)
      case None => root
      case Some(x) => UpdateDir(root, outP, CopyAll(x, Names(ListingAt(root, listP)), root, inP, hash))
  }

  /** The destination file `n` exists and hashes like its source. */
  predicate Synced(z: seq<Entry>, n: string, root: seq<Entry>, inP: seq<string>, hash: Bytes -> string) {
    FileIn(z, n).Some? && hash(FileIn(z, n).value) == hash(SourceBytes(root, inP, n))
  }

  /** Copying another name leaves `n` as it was. */
  lemma CopyOneOther(y: seq<Entry>, m: string, n: string, data: Bytes, hash: Bytes -> string)
    requires m != n
    ensures FileIn(CopyOne(y, m, data, hash), n) == FileIn(y, n)
    ensures DirIn(CopyOne(y, m, data, hash), n) == DirIn(y, n)
  {
    SetEntryFind(y, File(m, data), n);
  }

  /** Copying `n` itself leaves it synced, unless it is a directory, which stays one. */
  lemma CopyOneSelf(y: seq<Entry>, n: string, data: Bytes, hash: Bytes -> string)
    ensures var z := CopyOne(y, n, data, hash);
      DirIn(z, n) == DirIn(y, n) &&
      (!DirIn(y, n) ==> FileIn(z, n).Some? && hash(FileIn(z, n).value) == hash(data))
  {
    SetEntryFind(y, File(n, data), n);
  }

  /** Once synced, a destination file stays synced for the rest of the copy; directories stay directories. */
  lemma {:induction false} CopyAllPreserves(y: seq<Entry>, ns: seq<string>, root: seq<Entry>, inP: seq<string>, hash: Bytes -> string, n: string)
    ensures DirIn(CopyAll(y, ns, root, inP, hash), n) == DirIn(y, n)
    ensures Synced(y, n, root, inP, hash) ==> Synced(CopyAll(y, ns, root, inP, hash), n, root, inP, hash)
    decreases |ns|
  {
    if ns != [] {
      var d := SourceBytes(root, inP, ns[0]);
      var y1 := CopyOne(y, ns[0], d, hash);
      if ns[0] == n {
        CopyOneSelf(y, n, d, hash);
      } else {
        CopyOneOther(y, ns[0], n, d, hash);
      }
      CopyAllPreserves(y1, ns[1..], root, inP, hash, n);
    }
  }

  /** After the copy, every listed name that is not a directory at the destination is synced. */
  lemma {:induction false} CopyAllSynced(y: seq<Entry>, ns: seq<string>, root: seq<Entry>, inP: seq<string>, hash: Bytes -> string, n: string)
    requires n in ns && !DirIn(y, n)
    ensures Synced(CopyAll(y, ns, root, inP, hash), n, root, inP, hash)
    decreases |ns|
  {
    var d := SourceBytes(root, inP, ns[0]);
    var y1 := CopyOne(y, ns[0], d, hash);
    if ns[0] == n {
      CopyOneSelf(y, n, d, hash);
      CopyAllPreserves(y1, ns[1..], root, inP, hash, n);
    } else {
      CopyOneOther(y, ns[0], n, d, hash);
      assert n in ns[1..];
      CopyAllSynced(y1, ns[1..], root, inP, hash, n);
    }
  }

  /** With every listed name synced or a directory, the copy writes nothing. */
  lemma {:induction false} CopyAllNothing(z: seq<Entry>, ns: seq<string>, root: seq<Entry>, inP: seq<string>, hash: Bytes -> string)
    requires forall n :: n in ns ==> Synced(z, n, root, inP, hash) || DirIn(z, n)
    ensures CopyAll(z, ns, root, inP, hash) == z
    decreases |ns|
  {
    if ns != [] {
      assert ns[0] in ns;
      assert forall n :: n in ns[1..] ==> n in ns;
      CopyAllNothing(z, ns[1..], root, inP, hash);
    }
  }

  /** The copy is a fixed point after one run: a second run over the same listing writes nothing. */
  lemma CopyAllIdempotent(x: seq<Entry>, ns: seq<string>, root: seq<Entry>, inP: seq<string>, hash: Bytes -> string)
    ensures var z := CopyAll(x, ns, root, inP, hash); CopyAll(z, ns, root, inP, hash) == z
  {
    var z := CopyAll(x, ns, root, inP, hash);
    forall n | n in ns ensures Synced(z, n, root, inP, hash) || DirIn(z, n) {
      CopyAllPreserves(x, ns, root, inP, hash, n);
      if !DirIn(x, n) {
        CopyAllSynced(x, ns, root, inP, hash, n);
      }
    }
    CopyAllNothing(z, ns, root, inP, hash);
  }

  /** Source and listing sit under other top-level names than the destination. */
  predicate Apart(listP: seq<string>, inP: seq<string>, outP: seq<string>) {
    listP != [] && inP != [] && outP != [] && listP[0] != outP[0] && inP[0] != outP[0]
  }

  /** On the whole tree: a second copy with the same directories changes nothing. */
  lemma CopyTreeIdempotent(root: seq<Entry>, listP: seq<string>, inP: seq<string>, outP: seq<string>, hash: Bytes -> string)
    requires Apart(listP, inP, outP)
    ensures var r := CopyTree(root, listP, inP, outP, hash); CopyTree(r, listP, inP, outP, hash) == r
  {
    if ListDir(root, outP).Some? {
      var x := ListDir(root, outP).value;
      var ns := Names(ListingAt(root, listP));
      var z := CopyAll(x, ns, root, inP, hash);
      var r := UpdateDir(root, outP, z);
      ListUpdate(root, outP, z);
      ListDirElsewhere(root, outP, z, listP);
      assert Names(ListingAt(r, listP)) == ns;
      CopyAllIdempotent(x, ns, root, inP, hash);
      forall n | n in ns ensures Synced(z, n, r, inP, hash) || DirIn(z, n) {
        ReadElsewhere(root, outP, z, inP, n);
        CopyAllPreserves(x, ns, root, inP, hash, n);
        if !DirIn(x, n) {
          CopyAllSynced(x, ns, root, inP, hash, n);
        }
      }
      CopyAllNothing(z, ns, r, inP, hash);
      UpdateUpdate(root, outP, z, z);
    }
  }

  /**
   * What one pass of the copy loop reads and writes: the source file is read
   * from the unchanged input side, the destination file from the listing so
   * far, and a write replaces that listing (or changes nothing when the
   * destination directory is missing or the name is a directory).
   */
  lemma CopyEntryPaths(cur: seq<Entry>, root0: seq<Entry>, inDir: string, outDir: string, name: string, y: seq<Entry>,
                       hash: Bytes -> string)
    requires ValidName(name)
    requires PathOf(inDir) != [] && PathOf(outDir) != [] && PathOf(inDir)[0] != PathOf(outDir)[0]
    requires ListDir(root0, PathOf(outDir)).Some? ==> cur == UpdateDir(root0, PathOf(outDir), y)
    requires ListDir(root0, PathOf(outDir)).None? ==> cur == root0
    ensures ReadFileAt(cur, PathOf(inDir + "/" + name)) == ReadFileAt(root0, PathOf(inDir) + [name])
    ensures var d := SourceBytes(root0, PathOf(inDir), name); var q := PathOf(outDir + "/" + name);
      ListDir(root0, PathOf(outDir)).Some? ==>
        ReadFileAt(cur, q) == FileIn(y, name) &&
        (SkipCopy(d, FileIn(y, name), hash) ==> cur == UpdateDir(root0, PathOf(outDir), CopyOne(y, name, d, hash))) &&
        (!SkipCopy(d, FileIn(y, name), hash) ==> WritePath(cur, q, d) == UpdateDir(root0, PathOf(outDir), CopyOne(y, name, d, hash)))
    ensures var d := SourceBytes(root0, PathOf(inDir), name); var q := PathOf(outDir + "/" + name);
      ListDir(root0, PathOf(outDir)).None? ==> ReadFileAt(cur, q).None? && WritePath(cur, q, d) == root0
  {
    var inP := PathOf(inDir);
    var outP := PathOf(outDir);
    PathChild(inDir, name);
    PathChild(outDir, name);
    if ListDir(root0, outP).Some? {
      ReadElsewhere(root0, outP, y, inP, name);
      ReadInside(root0, outP, y, name);
      WriteInside(root0, outP, y, name, SourceBytes(root0, inP, name));
    } else {
      WriteMissing(root0, outP, name, SourceBytes(root0, inP, name));
    }
  }

  /** One pass of the copy loop: read both sides, skip on equal hashes, else create and write. */
  method CopyEntry(disk: LocalDisk, inDir: string, outDir: string, name: string, hash: Bytes -> string,
                   ghost root0: seq<Entry>, ghost y: seq<Entry>)
    modifies disk
    requires disk.Valid() && ValidName(name)
    requires PathOf(inDir) != [] && PathOf(outDir) != [] && PathOf(inDir)[0] != PathOf(outDir)[0]
    requires ListDir(root0, PathOf(outDir)).Some? ==> disk.root == UpdateDir(root0, PathOf(outDir), y)
    requires ListDir(root0, PathOf(outDir)).None? ==> disk.root == root0
    ensures disk.Valid()
    ensures ListDir(root0, PathOf(outDir)).Some? ==>
      disk.root == UpdateDir(root0, PathOf(outDir), CopyOne(y, name, SourceBytes(root0, PathOf(inDir), name), hash))
    ensures ListDir(root0, PathOf(outDir)).None? ==> disk.root == root0
  {
    var inPath := inDir + "/" + name;
    var outPath := outDir + "/" + name;
    CopyEntryPaths(disk.root, root0, inDir, outDir, name, y, hash);
    var inBytes: Bytes := match disk.ReadFile(inPath) case Some(d) => d case None => [];
    var outBytes := disk.ReadFile(outPath);
    if outBytes.Some? && hash(inBytes) == hash(outBytes.value) {
      return;
    }
    var ok := disk.WriteFile(outPath, inBytes);
  }

  /** Copy every entry listed in `listDir` from `inDir` to `outDir`, skipping unchanged files. */
  method CopyFiles(disk: LocalDisk, listDir: string, inDir: string, outDir: string, hash: Bytes -> string)
    modifies disk
    requires disk.Valid()
    requires PathOf(inDir) != [] && PathOf(outDir) != [] && PathOf(inDir)[0] != PathOf(outDir)[0]
    ensures disk.Valid()
    ensures disk.root == CopyTree(old(disk.root), PathOf(listDir), PathOf(inDir), PathOf(outDir), hash)
  {
    ghost var root0 := disk.root;
    ghost var inP := PathOf(inDir);
    ghost var outP := PathOf(outDir);
    var files := disk.ReadDir(listDir);
    ghost var ns := Names(files);
    ghost var x := ListingAt(root0, outP);
    ghost var y := x;
    CopyFilesStart(root0, outP);
    var i := 0;
    while i < |files|
      invariant 0 <= i <= |files|
      invariant disk.Valid()
      invariant ListDir(root0, outP).Some? ==> disk.root == UpdateDir(root0, outP, y)
      invariant ListDir(root0, outP).None? ==> disk.root == root0
      invariant CopyAll(y, ns[i..], root0, inP, hash) == CopyAll(x, ns, root0, inP, hash)
    {
      CopyAt(disk, inDir, outDir, files, i, hash, root0, x, y);
      y := CopyOne(y, files[i].name, SourceBytes(root0, inP, files[i].name), hash);
      i := i + 1;
    }
    CopyFilesDone(root0, PathOf(listDir), inP, outP, hash, files, y);
  }

  /** One iteration of CopyFiles' loop: the entry files[i] is copied and the rest of the names is still to go. */
  method CopyAt(disk: LocalDisk, inDir: string, outDir: string, files: seq<Entry>, i: int, hash: Bytes -> string,
                ghost root0: seq<Entry>, ghost x: seq<Entry>, ghost y: seq<Entry>)
    modifies disk
    requires disk.Valid() && 0 <= i < |files| && ValidListing(files)
    requires PathOf(inDir) != [] && PathOf(outDir) != [] && PathOf(inDir)[0] != PathOf(outDir)[0]
    requires ListDir(root0, PathOf(outDir)).Some? ==> disk.root == UpdateDir(root0, PathOf(outDir), y)
    requires ListDir(root0, PathOf(outDir)).None? ==> disk.root == root0
    requires CopyAll(y, Names(files)[i..], root0, PathOf(inDir), hash) == CopyAll(x, Names(files), root0, PathOf(inDir), hash)
    ensures disk.Valid()
    ensures var y' := CopyOne(y, files[i].name, SourceBytes(root0, PathOf(inDir), files[i].name), hash);
      (ListDir(root0, PathOf(outDir)).Some? ==> disk.root == UpdateDir(root0, PathOf(outDir), y')) &&
      (ListDir(root0, PathOf(outDir)).None? ==> disk.root == root0) &&
      CopyAll(y', Names(files)[i + 1..], root0, PathOf(inDir), hash) == CopyAll(x, Names(files), root0, PathOf(inDir), hash)
  {
    CopyAllStep(y, files, i, root0, PathOf(inDir), hash);
    CopyEntry(disk, inDir, outDir, files[i].name, hash, root0, y);
  }

  /** CopyAll takes the names one at a time. */
  lemma CopyAllStep(y: seq<Entry>, files: seq<Entry>, i: int, root: seq<Entry>, inP: seq<string>, hash: Bytes -> string)
    requires 0 <= i < |files|
    ensures var ns := Names(files); var n := files[i].name;
      CopyAll(y, ns[i..], root, inP, hash) == CopyAll(CopyOne(y, n, SourceBytes(root, inP, n), hash), ns[i + 1..], root, inP, hash)
  {
    var ns := Names(files);
    assert ns[i..][0] == files[i].name && ns[i..][1..] == ns[i + 1..];
  }

  /** Before the first name, the destination listing is the one on disk. */
  lemma CopyFilesStart(root: seq<Entry>, outP: seq<string>)
    ensures ListDir(root, outP).Some? ==> UpdateDir(root, outP, ListingAt(root, outP)) == root
  {
    if ListDir(root, outP).Some? {
      UpdateSame(root, outP);
    }
  }

  /** After the last name, the destination listing is the one CopyTree describes. */
  lemma CopyFilesDone(root: seq<Entry>, listP: seq<string>, inP: seq<string>, outP: seq<string>, hash: Bytes -> string,
                      files: seq<Entry>, y: seq<Entry>)
    requires files == ListingAt(root, listP)
    requires CopyAll(y, Names(files)[|files|..], root, inP, hash) ==
      CopyAll(ListingAt(root, outP), Names(files), root, inP, hash)
    ensures ListDir(root, outP).Some? ==> UpdateDir(root, outP, y) == CopyTree(root, listP, inP, outP, hash)
    ensures ListDir(root, outP).None? ==> root == CopyTree(root, listP, inP, outP, hash)
  {
    assert Names(files)[|files|..] == [];
  }

  /** The scaffold directory `dir` and its published copy, as slash-joined paths. */
  method ScaffoldPaths(dir: string) returns (listDir: string, outDir: string)
    requires ValidName(dir)
    ensures PathOf(listDir) == [SiteDir, dir] && PathOf(outDir) == [PubSiteDir, dir]
  {
    listDir := SiteDir + "/" + dir;
    outDir := PubSiteDir + "/" + dir;
    SitePathNames(dir);
  }

  lemma SitePathNames(dir: string)
    requires ValidName(dir)
    ensures PathOf(SiteDir + "/" + dir) == [SiteDir, dir] && PathOf(PubSiteDir + "/" + dir) == [PubSiteDir, dir]
  {
    TwoNames(SiteDir, dir);
    TwoNames(PubSiteDir, dir);
  }

  lemma TwoNames(a: string, n: string)
    requires ValidName(a) && ValidName(n)
    ensures PathOf(a + "/" + n) == [a, n]
  {
    PathChild(a, n);
    PathOfName(a);
  }

  /**
   * copyScaffoldDir as written: the listing is taken from the scaffold
   * directory under SiteDir, but each file is read from `dir` itself.
   */
  method CopyScaffoldDir(disk: LocalDisk, dir: string, hash: Bytes -> string)
    modifies disk
    requires disk.Valid() && ValidName(dir) && dir != PubSiteDir
    ensures disk.Valid()
    ensures disk.root == CopyTree(old(disk.root), [SiteDir, dir], [dir], [PubSiteDir, dir], hash)
  {
    var listDir, outDir := ScaffoldPaths(dir);
    PathOfName(dir);
    CopyFiles(disk, listDir, dir, outDir, hash);
  }

  /** copyScaffoldDir as evidently intended: read each file from where it was listed. */
  method CopyScaffoldDirIntended(disk: LocalDisk, dir: string, hash: Bytes -> string)
    modifies disk
    requires disk.Valid() && ValidName(dir)
    ensures disk.Valid()
    ensures disk.root == CopyTree(old(disk.root), [SiteDir, dir], [SiteDir, dir], [PubSiteDir, dir], hash)
  {
    var listDir, outDir := ScaffoldPaths(dir);
    CopyFiles(disk, listDir, listDir, outDir, hash);
  }

  /**
   * After the intended copy, every scaffold file that has an existing
   * destination directory, and no directory of its name there, is present
   * at the destination with the hash of the scaffold file.
   */
  lemma CopyIntendedSynced(root: seq<Entry>, dir: string, hash: Bytes -> string, n: string)
    requires ListDir(root, [PubSiteDir, dir]).Some?
    requires n in Names(ListingAt(root, [SiteDir, dir])) && !DirIn(ListDir(root, [PubSiteDir, dir]).value, n)
    ensures var after := CopyTree(root, [SiteDir, dir], [SiteDir, dir], [PubSiteDir, dir], hash);
      ReadFileAt(after, [PubSiteDir, dir, n]).Some? &&
      hash(ReadFileAt(after, [PubSiteDir, dir, n]).value) == hash(SourceBytes(root, [SiteDir, dir], n))
  {
    var outP := [PubSiteDir, dir];
    var x := ListDir(root, outP).value;
    var ns := Names(ListingAt(root, [SiteDir, dir]));
    var z := CopyAll(x, ns, root, [SiteDir, dir], hash);
    CopyAllSynced(x, ns, root, [SiteDir, dir], hash, n);
    ReadInside(root, outP, z, n);
    assert outP + [n] == [PubSiteDir, dir, n];
  }

  /**
   * A scaffold file site/js/app.js holding one byte, an empty public/js and no
   * top-level js directory: as written the copy creates public/js/app.js
   * empty; as intended it holds the byte.
   */
  lemma ScaffoldSourceExample(root: seq<Entry>, hash: Bytes -> string)
    requires root == [Dir("site", [Dir("js", [File("app.js", [1])])]), Dir("public", [Dir("js", [])])]
    ensures ReadFileAt(CopyTree(root, [SiteDir, "js"], ["js"], [PubSiteDir, "js"], hash), [PubSiteDir, "js", "app.js"]) == Some([])
    ensures ReadFileAt(CopyTree(root, [SiteDir, "js"], [SiteDir, "js"], [PubSiteDir, "js"], hash), [PubSiteDir, "js", "app.js"]) == Some([1])
  {
    ScaffoldListings(root);
    ScaffoldSources(root);
    CopyIntoEmpty(root, [SiteDir, "js"], ["js"], [PubSiteDir, "js"], "app.js", hash);
    CopyIntoEmpty(root, [SiteDir, "js"], [SiteDir, "js"], [PubSiteDir, "js"], "app.js", hash);
    assert [PubSiteDir, "js"] + ["app.js"] == [PubSiteDir, "js", "app.js"];
  }

  /** Copying a one-name listing into an empty destination creates that one file with its source bytes. */
  lemma CopyIntoEmpty(root: seq<Entry>, listP: seq<string>, inP: seq<string>, outP: seq<string>, n: string,
                      hash: Bytes -> string)
    requires ListDir(root, outP) == Some([])
    requires Names(ListingAt(root, listP)) == [n]
    ensures ReadFileAt(CopyTree(root, listP, inP, outP, hash), outP + [n]) == Some(SourceBytes(root, inP, n))
  {
    var d := SourceBytes(root, inP, n);
    var z := CopyOne([], n, d, hash);
    assert z == [File(n, d)];
    assert CopyAll([], [n], root, inP, hash) == CopyAll(z, [], root, inP, hash);
    ReadInside(root, outP, z, n);
  }

  /** The example's destination public/js is empty and its listing site/js holds app.js alone. */
  lemma ScaffoldListings(root: seq<Entry>)
    requires root == [Dir("site", [Dir("js", [File("app.js", [1])])]), Dir("public", [Dir("js", [])])]
    ensures ListDir(root, [PubSiteDir, "js"]) == Some([])
    ensures Names(ListingAt(root, [SiteDir, "js"])) == ["app.js"]
  {
    assert Find(root, PubSiteDir) == 1 && Find(root[1].children, "js") == 0;
    assert ListDir(root, [PubSiteDir, "js"]) == ListDir(root[1].children, ["js"]);
    assert Find(root, SiteDir) == 0 && Find(root[0].children, "js") == 0;
    assert ListDir(root, [SiteDir, "js"]) == ListDir(root[0].children, ["js"]);
    assert ListingAt(root, [SiteDir, "js"]) == [File("app.js", [1])];
  }

  /** In the example, js/app.js does not exist and site/js/app.js holds the byte 1. */
  lemma ScaffoldSources(root: seq<Entry>)
    requires root == [Dir("site", [Dir("js", [File("app.js", [1])])]), Dir("public", [Dir("js", [])])]
    ensures SourceBytes(root, ["js"], "app.js") == []
    ensures SourceBytes(root, [SiteDir, "js"], "app.js") == [1]
  {
    assert root[0].name != "js" && root[1].name != "js";
    assert Find(root, "js") == -1;
    assert ReadFileAt(root, ["js", "app.js"]).None?;
    assert Find(root, SiteDir) == 0 && Find(root[0].children, "js") == 0;
    assert ListDir(root, [SiteDir, "js"]) == ListDir(root[0].children, ["js"]);
    assert ListDir(root, [SiteDir, "js"]) == Some([File("app.js", [1])]);
    var q := [SiteDir, "js"] + ["app.js"];
    assert q[..|q| - 1] == [SiteDir, "js"] && q[|q| - 1] == "app.js";
    assert ReadFileAt(root, q) == Some([1]);
  }
}
