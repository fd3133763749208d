/**
 * build/flush.go: the recursive removal of stale files below a build
 * directory, and the reset of the build output directory before a build.
 * The keep rule for a file is the one of site.FlushInvalid; here it is
 * applied at every depth with the same key set.
 */
module BuildFlush {
  import opened GoStrings
  import opened FileTree
  import Site
  import Sync

  /** The build package's output directory and its fixed subdirectories. */
  const PubSiteDir := "site"
  const CSSStylesDir := "css"
  const JavaScriptDir := "js"

  /** What one entry of a listing becomes, given the flushed listing `sub` of a directory. */
  function Step(e: Entry, valid: map<string, bool>, sub: seq<Entry>): seq<Entry> {
    if e.Dir? then [Dir(e.name, sub)]
    else if Site.KeepFile(e.name, valid) then [e]
    else []
  }

  /**
   * The listing flushInvalid leaves of `l`: every directory, flushed in
   * turn, and the files whose names the keys account for, in order.
   */
  function FlushTree(l: seq<Entry>, valid: map<string, bool>): seq<Entry>
    decreases l
  {
    if l == [] then []
    else
      var e := l[|l| - 1];
      FlushTree(l[..|l| - 1], valid) + Step(e, valid, if e.Dir? then FlushTree(e.children, valid) else [])
  }

  /** The tree after flushInvalid on the directory at `p`; a missing directory changes nothing. */
  function FlushInvalidTree(root: seq<Entry>, p: seq<string>, valid: map<string, bool>): seq<Entry> {
    match ListDir(root, p)
      case None => root
      case Some(x) => UpdateDir(root, p, FlushTree(x, valid))
  }

  lemma FlushTreeSnoc(l: seq<Entry>, e: Entry, valid: map<string, bool>)
    ensures FlushTree(l + [e], valid) ==
      FlushTree(l, valid) + Step(e, valid, if e.Dir? then FlushTree(e.children, valid) else [])
  {
    assert (l + [e])[..|l + [e]| - 1] == l;
  }

  /** Flushing works entry by entry: a listing split in two flushes as its two halves. */
  lemma {:induction false} FlushTreeConcat(a: seq<Entry>, b: seq<Entry>, valid: map<string, bool>)
    ensures FlushTree(a + b, valid) == FlushTree(a, valid) + FlushTree(b, valid)
    decreases |b|
  {
    if b == [] {
      assert a + b == a;
    } else {
      var init := b[..|b| - 1];
      var e := b[|b| - 1];
      var s := Step(e, valid, if e.Dir? then FlushTree(e.children, valid) else []);
      assert FlushTree(a + b, valid) == FlushTree(a + init, valid) + s by {
        Snoc(b);
        assert a + b == (a + init) + [e];
        FlushTreeSnoc(a + init, e, valid);
      }
      assert FlushTree(b, valid) == FlushTree(init, valid) + s by {
        Snoc(b);
        FlushTreeSnoc(init, e, valid);
      }
      FlushTreeConcat(a, init, valid);
      ConcatAssoc(FlushTree(a, valid), FlushTree(init, valid), s);
    }
  }

  /**
   * Looking a name up after the flush: a directory is still there with its
   * listing flushed, a file is there unchanged exactly when it is kept,
   * and an absent name stays absent.
   */
  predicate FoundAfterFlush(l: seq<Entry>, valid: map<string, bool>, n: string) {
    var k := Find(l, n); var r := FlushTree(l, valid); var j := Find(r, n);
    (k < 0 ==> j < 0) &&
    (k >= 0 && l[k].Dir? ==> j >= 0 && r[j] == Dir(n, FlushTree(l[k].children, valid))) &&
    (k >= 0 && l[k].File? ==> if Site.KeepFile(n, valid) then j >= 0 && r[j] == l[k] else j < 0)
  }

  lemma {:induction false} FlushFind(l: seq<Entry>, valid: map<string, bool>, n: string)
    requires UniqueNames(l)
    ensures FoundAfterFlush(l, valid, n)
    decreases |l|, 1
  {
    if l != [] {
      assert UniqueNames(l[..|l| - 1]) by {
        var init := l[..|l| - 1];
        forall i, j | 0 <= i < j < |init| ensures init[i].name != init[j].name {
          assert init[i] == l[i] && init[j] == l[j];
        }
      }
      FlushFind(l[..|l| - 1], valid, n);
      if l[|l| - 1].name == n {
        LastUnique(l);
        FlushFindLast(l, valid, n);
      } else {
        FlushFindOther(l, valid, n);
      }
    }
  }

  /** The name looked up is the last one of the listing. */
  lemma FlushFindLast(l: seq<Entry>, valid: map<string, bool>, n: string)
    requires l != [] && l[|l| - 1].name == n
    requires Find(l[..|l| - 1], n) < 0 && Find(FlushTree(l[..|l| - 1], valid), n) < 0
    ensures FoundAfterFlush(l, valid, n)
  {
    var init := l[..|l| - 1];
    var e := l[|l| - 1];
    var sub := if e.Dir? then FlushTree(e.children, valid) else [];
    var s := Step(e, valid, sub);
    var fi := FlushTree(init, valid);
    assert FlushTree(l, valid) == fi + s;
    StepFind(e, valid, sub, n);
    FindLastOf(l, fi, s, n);
  }

  /** Find on two listings that each end with the one entry of name `n`, if any. */
  lemma FindLastOf(l: seq<Entry>, fi: seq<Entry>, s: seq<Entry>, n: string)
    requires l != [] && l[|l| - 1].name == n && Find(l[..|l| - 1], n) < 0
    requires Find(fi, n) < 0 && (Find(s, n) == 0 || s == [])
    ensures Find(l, n) == |l| - 1
    ensures Find(fi + s, n) == (if s == [] then -1 else |fi|)
    ensures s != [] ==> (fi + s)[|fi|] == s[0]
  {
    var init := l[..|l| - 1];
    assert l == init + [l[|l| - 1]] by { Snoc(l); }
    FindConcat(init, [l[|l| - 1]], n);
    FindConcat(fi, s, n);
  }

  /** With unique names, the last name of a listing is not among the ones before it. */
  lemma LastUnique(l: seq<Entry>)
    requires l != [] && UniqueNames(l)
    ensures Find(l[..|l| - 1], l[|l| - 1].name) < 0
  {
    var init := l[..|l| - 1];
    forall j | 0 <= j < |init| ensures init[j].name != l[|l| - 1].name {
      assert init[j] == l[j];
    }
  }

  /** The name looked up is not the last one of the listing. */
  lemma FlushFindOther(l: seq<Entry>, valid: map<string, bool>, n: string)
    requires l != [] && l[|l| - 1].name != n
    requires FoundAfterFlush(l[..|l| - 1], valid, n)
    ensures FoundAfterFlush(l, valid, n)
  {
    var init := l[..|l| - 1];
    var e := l[|l| - 1];
    var sub := if e.Dir? then FlushTree(e.children, valid) else [];
    var s := Step(e, valid, sub);
    var fi := FlushTree(init, valid);
    assert FlushTree(l, valid) == fi + s;
    StepFind(e, valid, sub, n);
    FindBeforeLast(l, fi, s, n);
  }

  /** Find on two listings whose last parts do not hold name `n`. */
  lemma FindBeforeLast(l: seq<Entry>, fi: seq<Entry>, s: seq<Entry>, n: string)
    requires l != [] && l[|l| - 1].name != n && Find(s, n) < 0
    ensures Find(l, n) == Find(l[..|l| - 1], n)
    ensures Find(l, n) >= 0 ==> l[Find(l, n)] == l[..|l| - 1][Find(l, n)]
    ensures Find(fi + s, n) == Find(fi, n)
    ensures Find(fi, n) >= 0 ==> (fi + s)[Find(fi, n)] == fi[Find(fi, n)]
  {
    var init := l[..|l| - 1];
    assert l == init + [l[|l| - 1]] by { Snoc(l); }
    FindConcat(init, [l[|l| - 1]], n);
    FindConcat(fi, s, n);
  }

  /** Looking a name up in what one entry becomes. */
  lemma StepFind(e: Entry, valid: map<string, bool>, sub: seq<Entry>, n: string)
    ensures var s := Step(e, valid, sub);
      Find(s, n) == (if e.name == n && (e.Dir? || Site.KeepFile(e.name, valid)) then 0 else -1) &&
      (Find(s, n) == 0 ==> s[0] == (if e.Dir? then Dir(e.name, sub) else e))
  {
  }

  /** Every directory survives, at the same path, holding its flushed listing. */
  lemma {:induction false} ListDirFlush(l: seq<Entry>, valid: map<string, bool>, p: seq<string>)
    requires ValidListing(l)
    ensures ListDir(FlushTree(l, valid), p) ==
      match ListDir(l, p) case None => None case Some(x) => Some(FlushTree(x, valid))
    decreases p
  {
    if p != [] {
      FlushFind(l, valid, p[0]);
      var k := Find(l, p[0]);
      if k >= 0 && l[k].Dir? {
        ListDirFlush(l[k].children, valid, p[1..]);
      }
    }
  }

  /**
   * A file survives the flush, unchanged, exactly when its own name is
   * kept: the same key set applies at every depth, so only the base name
   * decides.
   */
  lemma FlushRead(l: seq<Entry>, valid: map<string, bool>, q: seq<string>)
    requires ValidListing(l)
    ensures ReadFileAt(FlushTree(l, valid), q) ==
      if q != [] && Site.KeepFile(q[|q| - 1], valid) then ReadFileAt(l, q) else None
  {
    if q != [] {
      var d := q[..|q| - 1];
      var n := q[|q| - 1];
      ListDirFlush(l, valid, d);
      if ListDir(l, d).Some? {
        var x := ListDir(l, d).value;
        ListValid(l, d);
        FlushFind(x, valid, n);
      }
    }
  }

  /** Directories are never removed by the flush. */
  lemma FlushKeepsDirs(l: seq<Entry>, valid: map<string, bool>, p: seq<string>)
    requires ValidListing(l) && ListDir(l, p).Some?
    ensures ListDir(FlushTree(l, valid), p).Some?
  {
    ListDirFlush(l, valid, p);
  }

  /** A second flush with the same keys removes nothing. */
  lemma {:induction false} FlushTreeIdempotent(l: seq<Entry>, valid: map<string, bool>)
    ensures FlushTree(FlushTree(l, valid), valid) == FlushTree(l, valid)
    decreases l
  {
    if l != [] {
      var init := l[..|l| - 1];
      var e := l[|l| - 1];
      var s := Step(e, valid, if e.Dir? then FlushTree(e.children, valid) else []);
      FlushTreeConcat(FlushTree(init, valid), s, valid);
      FlushTreeIdempotent(init, valid);
      if e.Dir? {
        FlushTreeIdempotent(e.children, valid);
        FlushTreeSnoc([], s[0], valid);
        assert [] + [s[0]] == s;
      } else if s != [] {
        FlushTreeSnoc([], e, valid);
        assert [] + [e] == s;
      }
    }
  }

  /** On the whole tree: a second flushInvalid of the same directory changes nothing. */
  lemma FlushInvalidIdempotent(root: seq<Entry>, p: seq<string>, valid: map<string, bool>)
    ensures FlushInvalidTree(FlushInvalidTree(root, p, valid), p, valid) == FlushInvalidTree(root, p, valid)
  {
    if ListDir(root, p).Some? {
      var x := ListDir(root, p).value;
      ListUpdate(root, p, FlushTree(x, valid));
      FlushTreeIdempotent(x, valid);
      UpdateUpdate(root, p, FlushTree(x, valid), FlushTree(x, valid));
    }
  }

  lemma ReplaceMiddle(done: seq<Entry>, e: Entry, rest: seq<Entry>, f: Entry)
    ensures (done + [e] + rest)[|done| := f] == done + [f] + rest
  {
  }

  /** The subdirectory being visited is listed at its own path. */
  lemma ChildListed(root0: seq<Entry>, p: seq<string>, done: seq<Entry>, e: Entry, rest: seq<Entry>)
    requires ListDir(root0, p).Some? && e.Dir?
    requires ValidListing(UpdateDir(root0, p, done + [e] + rest))
    ensures ListDir(UpdateDir(root0, p, done + [e] + rest), p + [e.name]) == Some(e.children)
    ensures ValidName(e.name)
  {
    var y := done + [e] + rest;
    WrittenValid(root0, p, y);
    MiddleName(done, e, rest);
    ListUpdate(root0, p, y);
    FindUnique(y, |done|);
    ListChild(UpdateDir(root0, p, y), p, e.name);
  }

  /** Writing a flushed subdirectory back is replacing its entry in the parent listing. */
  lemma ChildFlushed(root0: seq<Entry>, p: seq<string>, done: seq<Entry>, e: Entry, rest: seq<Entry>, sub: seq<Entry>)
    requires ListDir(root0, p).Some? && e.Dir?
    requires ValidListing(UpdateDir(root0, p, done + [e] + rest))
    ensures var cur := UpdateDir(root0, p, done + [e] + rest);
      UpdateDir(cur, p + [e.name], sub) == UpdateDir(root0, p, done + [Dir(e.name, sub)] + rest)
  {
    var y := done + [e] + rest;
    WrittenValid(root0, p, y);
    MiddleName(done, e, rest);
    ListUpdate(root0, p, y);
    FindUnique(y, |done|);
    UpdateChild(UpdateDir(root0, p, y), p, e.name, sub);
    ReplaceMiddle(done, e, rest, Dir(e.name, sub));
    UpdateUpdate(root0, p, y, done + [Dir(e.name, sub)] + rest);
  }

  /** One pass of flushInvalid's loop: recurse into a directory, or remove a file no key accounts for. */
  method FlushInvalidEntry(disk: LocalDisk, dir: string, f: Entry, valid: map<string, bool>,
                           ghost tree: seq<Entry>, ghost root0: seq<Entry>, ghost done: seq<Entry>, ghost rest: seq<Entry>)
    modifies disk
    requires f in tree
    requires disk.Valid() && ListDir(root0, PathOf(dir)).Some?
    requires disk.root == UpdateDir(root0, PathOf(dir), done + [f] + rest)
    ensures disk.Valid()
    ensures disk.root == UpdateDir(root0, PathOf(dir),
      done + Step(f, valid, if f.Dir? then FlushTree(f.children, valid) else []) + rest)
    decreases tree, 0
  {
    ghost var p := PathOf(dir);
    if f.Dir? {
      ChildListed(root0, p, done, f, rest);
      PathChild(dir, f.name);
      ChildFlushed(root0, p, done, f, rest, FlushTree(f.children, valid));
      FlushInvalidAt(disk, dir + "/" + f.name, valid, f.children);
      return;
    }
    assert Step(f, valid, []) == if Site.KeepFile(f.name, valid) then [f] else [];
    KeepMiddle(done, f, rest, Site.KeepFile(f.name, valid));
    if !(f.name in valid && valid[f.name]) {
      var remove := true;
      var found := Site.HasKeyPrefix(f.name, valid);
      if found {
        remove := false;
      }
      if remove {
        WrittenValid(root0, p, done + [f] + rest);
        MiddleName(done, f, rest);
        RemoveStep(root0, p, done, f, rest);
        PathChild(dir, f.name);
        disk.RemoveAll(dir + "/" + f.name);
        return;
      }
    }
  }

  /** flushInvalid on a directory whose listing is `tree`. */
  method FlushInvalidAt(disk: LocalDisk, dir: string, valid: map<string, bool>, ghost tree: seq<Entry>)
    modifies disk
    requires disk.Valid() && tree == disk.ReadDir(dir)
    ensures disk.Valid()
    ensures disk.root == FlushInvalidTree(old(disk.root), PathOf(dir), valid)
    decreases tree, 1
  {
    ghost var root0 := disk.root;
    ghost var p := PathOf(dir);
    var files := disk.ReadDir(dir);
    FlushStart(root0, p, files, valid);
    var i := 0;
    while i < |files|
      invariant 0 <= i <= |files|
      invariant disk.Valid()
      invariant ListDir(root0, p).Some? || files == []
      invariant disk.root == UpdateDir(root0, p, FlushTree(files[..i], valid) + files[i..])
    {
      FlushProgress(files, i, valid);
      FlushInvalidEntry(disk, dir, files[i], valid, tree, root0, FlushTree(files[..i], valid), files[i + 1..]);
      i := i + 1;
    }
    FlushDone(root0, p, files, valid);
  }

  /** Before the loop: nothing is flushed yet, and the tree is the one read. */
  lemma FlushStart(root: seq<Entry>, p: seq<string>, files: seq<Entry>, valid: map<string, bool>)
    requires ListDir(root, p).Some? ==> files == ListDir(root, p).value
    requires ListDir(root, p).None? ==> files == []
    ensures ListDir(root, p).Some? || files == []
    ensures UpdateDir(root, p, FlushTree(files[..0], valid) + files[0..]) == root
  {
    assert FlushTree(files[..0], valid) + files[0..] == files;
    if ListDir(root, p).Some? {
      UpdateSame(root, p);
    } else {
      UpdateNone(root, p, files);
    }
  }

  /** After the loop: the whole listing is flushed, which is FlushInvalidTree. */
  lemma FlushDone(root: seq<Entry>, p: seq<string>, files: seq<Entry>, valid: map<string, bool>)
    requires ListDir(root, p).Some? ==> files == ListDir(root, p).value
    requires ListDir(root, p).None? ==> files == []
    ensures UpdateDir(root, p, FlushTree(files[..|files|], valid) + files[|files|..]) ==
      FlushInvalidTree(root, p, valid)
  {
    assert files[..|files|] == files;
    if ListDir(root, p).None? {
      UpdateNone(root, p, []);
      assert FlushTree(files, valid) + files[|files|..] == [];
    } else {
      assert FlushTree(files, valid) + files[|files|..] == FlushTree(files, valid);
    }
  }

  lemma FlushProgress(l: seq<Entry>, i: int, valid: map<string, bool>)
    requires 0 <= i < |l|
    ensures var done := FlushTree(l[..i], valid); var e := l[i];
      done + [e] + l[i + 1..] == FlushTree(l[..i], valid) + l[i..] &&
      FlushTree(l[..i + 1], valid) + l[i + 1..] ==
        done + Step(e, valid, if e.Dir? then FlushTree(e.children, valid) else []) + l[i + 1..]
  {
    assert l[..i + 1] == l[..i] + [l[i]];
    FlushTreeSnoc(l[..i], l[i], valid);
    assert l[i..] == [l[i]] + l[i + 1..];
  }

  /** build.flushInvalid: remove, at every depth below `dir`, the files no key accounts for. */
  method FlushInvalid(disk: LocalDisk, dir: string, valid: map<string, bool>)
    modifies disk
    requires disk.Valid()
    ensures disk.Valid()
    ensures disk.root == FlushInvalidTree(old(disk.root), PathOf(dir), valid)
  {
    FlushInvalidAt(disk, dir, valid, disk.ReadDir(dir));
  }

  // ---- flushPrevious -------------------------------------------------

  /** The Mkdir errors flushPrevious logs: every error except one saying the directory exists. */
  function Logged(err: Option<string>): (r: seq<string>)
    ensures r == [] <==> err.None? || Contains(err.value, "file exists")
  {
    if err.Some? && !Contains(err.value, "file exists") then [err.value] else []
  }

  /** The paths flushPrevious creates. */
  const SitePath: seq<string> := [PubSiteDir]
  const CSSPath: seq<string> := [PubSiteDir, CSSStylesDir]
  const JSPath: seq<string> := [PubSiteDir, JavaScriptDir]

  /** The tree after flushPrevious: stale collections removed, then the three directories made. */
  function ResetTree(root: seq<Entry>, collections: seq<string>): seq<Entry> {
    var r1 := Sync.FlushDirTree(root, SitePath, collections);
    var r2 := MkdirPath(r1, SitePath);
    var r3 := MkdirPath(r2, CSSPath);
    MkdirPath(r3, JSPath)
  }

  /** The errors flushPrevious logs, in order. */
  function ResetErrors(root: seq<Entry>, collections: seq<string>): seq<string> {
    var r1 := Sync.FlushDirTree(root, SitePath, collections);
    var r2 := MkdirPath(r1, SitePath);
    var r3 := MkdirPath(r2, CSSPath);
    Logged(MkdirError(r1, SitePath)) + Logged(MkdirError(r2, CSSPath)) + Logged(MkdirError(r3, JSPath))
  }

  method MkdirLogged(disk: LocalDisk, path: string) returns (logged: seq<string>)
    modifies disk
    requires disk.Valid()
    ensures disk.Valid()
    ensures logged == Logged(MkdirError(old(disk.root), PathOf(path)))
    ensures disk.root == MkdirPath(old(disk.root), PathOf(path))
  {
    var err := disk.Mkdir(path);
    logged := [];
    if err.Some? && !Contains(err.value, "file exists") {
      logged := [err.value];
    }
  }

  lemma BuildPaths()
    ensures PathOf(PubSiteDir) == SitePath
    ensures PathOf(PubSiteDir + "/" + CSSStylesDir) == CSSPath
    ensures PathOf(PubSiteDir + "/" + JavaScriptDir) == JSPath
  {
    PathOfName(PubSiteDir);
    PathChild(PubSiteDir, CSSStylesDir);
    PathChild(PubSiteDir, JavaScriptDir);
  }

  /** build.flushPrevious: keep only the collection directories, then make site, site/css and site/js. */
  method FlushPrevious(disk: LocalDisk, collections: seq<string>) returns (logged: seq<string>)
    modifies disk
    requires disk.Valid()
    ensures disk.Valid()
    ensures disk.root == ResetTree(old(disk.root), collections)
    ensures logged == ResetErrors(old(disk.root), collections)
  {
    BuildPaths();
    Sync.FlushDir(disk, PubSiteDir, collections);
    var e1 := MkdirLogged(disk, PubSiteDir);
    var e2 := MkdirLogged(disk, PubSiteDir + "/" + CSSStylesDir);
    var e3 := MkdirLogged(disk, PubSiteDir + "/" + JavaScriptDir);
    logged := e1 + e2 + e3;
  }

  /** os.Mkdir of a name in an existing directory: "file exists" if the name is taken, else a new empty directory. */
  lemma MkdirIn(l: seq<Entry>, p: seq<string>, m: string)
    requires ListDir(l, p).Some?
    ensures var x := ListDir(l, p).value;
      MkdirError(l, p + [m]) == (if Find(x, m) >= 0 then Some(ErrExist) else None) &&
      ListDir(MkdirPath(l, p + [m]), p) == Some(if Find(x, m) >= 0 then x else x + [Dir(m, [])])
  {
    assert (p + [m])[..|p + [m]| - 1] == p && (p + [m])[|p + [m]| - 1] == m;
    var x := ListDir(l, p).value;
    if Find(x, m) < 0 {
      ListUpdate(l, p, x + [Dir(m, [])]);
    }
  }

  /** The directory Mkdir leaves holds `m` as a directory unless a file took the name; other names keep their entries. */
  lemma MkdirListing(x: seq<Entry>, m: string, n: string)
    ensures var y := if Find(x, m) >= 0 then x else x + [Dir(m, [])];
      (FileIn(x, m).None? ==> DirIn(y, m)) &&
      (n != m ==> Find(y, n) == Find(x, n) && (Find(x, n) >= 0 ==> y[Find(y, n)] == x[Find(x, n)]))
  {
    FindAppend(x, Dir(m, []), m);
    FindAppend(x, Dir(m, []), n);
  }

  lemma NoSuppressedExist()
    ensures Logged(Some(ErrExist)) == []
  {
    assert HasPrefix(ErrExist, "file exists");
  }

  /** The site listing after flushPrevious, when there was a site directory or none at all. */
  lemma SiteListing(root: seq<Entry>, collections: seq<string>)
    requires ValidListing(root) && !(Find(root, PubSiteDir) >= 0 && root[Find(root, PubSiteDir)].File?)
    ensures var r1 := Sync.FlushDirTree(root, SitePath, collections);
      MkdirError(r1, SitePath) == (if ListDir(root, SitePath).Some? then Some(ErrExist) else None) &&
      ListDir(MkdirPath(r1, SitePath), SitePath) ==
        Some(if ListDir(root, SitePath).Some? then Sync.KeepAllowed(ListDir(root, SitePath).value, collections) else [])
  {
    var r1 := Sync.FlushDirTree(root, SitePath, collections);
    assert SitePath == [] + [PubSiteDir];
    ListChild(root, [], PubSiteDir);
    if ListDir(root, SitePath).Some? {
      Sync.FlushDirResult(root, SitePath, collections);
      ListChild(r1, [], PubSiteDir);
      MkdirIn(r1, [], PubSiteDir);
    } else {
      assert r1 == root;
      MkdirIn(root, [], PubSiteDir);
      var r2 := MkdirPath(root, SitePath);
      assert r2 == root + [Dir(PubSiteDir, [])];
      FindAppend(root, Dir(PubSiteDir, []), PubSiteDir);
      ListChild(r2, [], PubSiteDir);
    }
  }

  /** Two Mkdirs of fresh or directory names in one directory: both are directories afterwards, neither logs. */
  lemma MkdirTwo(l: seq<Entry>, p: seq<string>, a: string, b: string)
    requires ListDir(l, p).Some? && a != b
    requires FileIn(ListDir(l, p).value, a).None? && FileIn(ListDir(l, p).value, b).None?
    ensures var r1 := MkdirPath(l, p + [a]); var r2 := MkdirPath(r1, p + [b]);
      Logged(MkdirError(l, p + [a])) == [] && ListDir(r1, p).Some? &&
      Logged(MkdirError(r1, p + [b])) == [] && ListDir(r2, p).Some? &&
      var x := ListDir(l, p).value; var y := ListDir(r2, p).value;
      DirIn(y, a) && DirIn(y, b) &&
      forall e :: e in y ==> e in x || e == Dir(a, []) || e == Dir(b, [])
  {
    var x := ListDir(l, p).value;
    var r1 := MkdirPath(l, p + [a]);
    NoSuppressedExist();
    MkdirIn(l, p, a);
    var y1 := ListDir(r1, p).value;
    MkdirListing(x, a, b);
    MkdirIn(r1, p, b);
    MkdirListing(y1, b, a);
    MkdirMembers(x, a);
    MkdirMembers(y1, b);
  }

  /** Mkdir adds at most the new, empty directory to a listing. */
  lemma MkdirMembers(x: seq<Entry>, m: string)
    ensures forall e :: e in (if Find(x, m) >= 0 then x else x + [Dir(m, [])]) ==> e in x || e == Dir(m, [])
  {
  }

  /** site/css and site/js are the two children of site. */
  lemma StylePaths()
    ensures CSSPath == SitePath + [CSSStylesDir] && JSPath == SitePath + [JavaScriptDir]
  {
  }

  /** A path with no file to read names no file in its parent's listing. */
  lemma NoFileIn(root: seq<Entry>, p: seq<string>, n: string)
    requires ListDir(root, p).Some? && ReadFileAt(root, p + [n]).None?
    ensures FileIn(ListDir(root, p).value, n).None?
  {
    assert (p + [n])[..|p + [n]| - 1] == p && (p + [n])[|p + [n]| - 1] == n;
  }

  /** The site directory after the FlushDir and its own Mkdir: collection directories only, no file css or js. */
  lemma SiteStage(root: seq<Entry>, collections: seq<string>)
    requires ValidListing(root)
    requires !(Find(root, PubSiteDir) >= 0 && root[Find(root, PubSiteDir)].File?)
    requires ReadFileAt(root, CSSPath).None? && ReadFileAt(root, JSPath).None?
    ensures var r1 := Sync.FlushDirTree(root, SitePath, collections); var r2 := MkdirPath(r1, SitePath);
      Logged(MkdirError(r1, SitePath)) == [] && ListDir(r2, SitePath).Some? &&
      var x2 := ListDir(r2, SitePath).value;
      FileIn(x2, CSSStylesDir).None? && FileIn(x2, JavaScriptDir).None? &&
      forall e :: e in x2 && e.Dir? ==> e.name in collections
  {
    SiteListing(root, collections);
    NoSuppressedExist();
    if ListDir(root, SitePath).Some? {
      var x0 := ListDir(root, SitePath).value;
      StylePaths();
      NoFileIn(root, SitePath, CSSStylesDir);
      NoFileIn(root, SitePath, JavaScriptDir);
      ListValid(root, SitePath);
      KeptFile(x0, collections, CSSStylesDir);
      KeptFile(x0, collections, JavaScriptDir);
    }
  }

  /**
   * After flushPrevious, unless a plain file stands where site, site/css or
   * site/js should be: site/css and site/js are directories, every
   * directory in site is css, js or a collection, and nothing is logged.
   */
  lemma FlushPreviousResult(root: seq<Entry>, collections: seq<string>)
    requires ValidListing(root)
    requires !(Find(root, PubSiteDir) >= 0 && root[Find(root, PubSiteDir)].File?)
    requires ReadFileAt(root, CSSPath).None? && ReadFileAt(root, JSPath).None?
    ensures ListDir(ResetTree(root, collections), SitePath).Some?
    ensures var x := ListDir(ResetTree(root, collections), SitePath).value;
      DirIn(x, CSSStylesDir) && DirIn(x, JavaScriptDir) &&
      forall e :: e in x && e.Dir? ==> e.name in collections || e.name == CSSStylesDir || e.name == JavaScriptDir
    ensures ResetErrors(root, collections) == []
  {
    ResetListing(root, collections);
    ResetClean(root, collections);
  }

  lemma ResetListing(root: seq<Entry>, collections: seq<string>)
    requires ValidListing(root)
    requires !(Find(root, PubSiteDir) >= 0 && root[Find(root, PubSiteDir)].File?)
    requires ReadFileAt(root, CSSPath).None? && ReadFileAt(root, JSPath).None?
    ensures ListDir(ResetTree(root, collections), SitePath).Some?
    ensures var x := ListDir(ResetTree(root, collections), SitePath).value;
      DirIn(x, CSSStylesDir) && DirIn(x, JavaScriptDir) &&
      forall e :: e in x && e.Dir? ==> e.name in collections || e.name == CSSStylesDir || e.name == JavaScriptDir
  {
    var r1 := Sync.FlushDirTree(root, SitePath, collections);
    var r2 := MkdirPath(r1, SitePath);
    SiteStage(root, collections);
    StylePaths();
    MkdirTwo(r2, SitePath, CSSStylesDir, JavaScriptDir);
  }

  lemma ResetClean(root: seq<Entry>, collections: seq<string>)
    requires ValidListing(root)
    requires !(Find(root, PubSiteDir) >= 0 && root[Find(root, PubSiteDir)].File?)
    requires ReadFileAt(root, CSSPath).None? && ReadFileAt(root, JSPath).None?
    ensures ResetErrors(root, collections) == []
  {
    var r1 := Sync.FlushDirTree(root, SitePath, collections);
    var r2 := MkdirPath(r1, SitePath);
    SiteStage(root, collections);
    StylePaths();
    MkdirTwo(r2, SitePath, CSSStylesDir, JavaScriptDir);
  }

  /** A file of the site listing is one FlushDir kept, so a name with no file before has none after. */
  lemma KeptFile(x: seq<Entry>, collections: seq<string>, n: string)
    requires UniqueNames(x) && FileIn(x, n).None?
    ensures FileIn(Sync.KeepAllowed(x, collections), n).None?
  {
    var r := Sync.KeepAllowed(x, collections);
    var k := Find(r, n);
    if k >= 0 && r[k].File? {
      assert r[k] in x;
      var i :| 0 <= i < |x| && x[i] == r[k];
      FindUnique(x, i);
      assert false;
    }
  }
}
