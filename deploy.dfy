/**
 * deploy/deploy.go: walking the generated site and handing its files to the
 * configured driver. The worker goroutines and the jobs channel are modelled
 * sequentially: DeployDirs returns the jobs it would send, in order, and
 * PutFiles runs them one after another against the S3 bucket, or reports the
 * panic or the blocked channel that a driver or worker setting leads to.
 */
module Deploy {
  import opened GoStrings
  import opened FileTree
  import Site
  import S3

  datatype PutJob = PutJob(localPrefix: string, path: string, force: bool)

  /** The driver name under which the S3 driver registers itself. */
  const S3Driver := "s3"

  // ---- component paths -------------------------------------------------

  /** A component path written the way GetPaths writes it: "/" before every name. */
  function Slashed(q: seq<string>): string
    decreases |q|
  {
    if q == [] then "" else "/" + q[0] + Slashed(q[1..])
  }

  /** Prefix every component path with the name `n`. */
  function Under(n: string, qs: seq<seq<string>>): (r: seq<seq<string>>)
    ensures |r| == |qs| && forall i :: 0 <= i < |qs| ==> r[i] == [n] + qs[i]
  {
    seq(|qs|, i requires 0 <= i < |qs| => [n] + qs[i])
  }

  /** The regular files below a listing, as component paths, in GetPaths' order. */
  function FilePaths(l: seq<Entry>): seq<seq<string>>
    decreases l
  {
    if l == [] then []
    else
      var e := l[|l| - 1];
      FilePaths(l[..|l| - 1]) + (if e.Dir? then Under(e.name, FilePaths(e.children)) else [[e.name]])
  }

  /** GetPaths' recursion over a listing: a file gives prefix/name, a directory its own contents. */
  function Flatten(prefix: string, l: seq<Entry>): seq<string>
    decreases l
  {
    if l == [] then []
    else
      var e := l[|l| - 1];
      Flatten(prefix, l[..|l| - 1]) +
        (if e.Dir? then Flatten(prefix + "/" + e.name, e.children) else [prefix + "/" + e.name])
  }

  /** Component paths written out below a prefix. */
  function Written(prefix: string, qs: seq<seq<string>>): (r: seq<string>)
    ensures |r| == |qs| && forall i :: 0 <= i < |qs| ==> r[i] == prefix + Slashed(qs[i])
  {
    seq(|qs|, i requires 0 <= i < |qs| => prefix + Slashed(qs[i]))
  }

  lemma WrittenConcat(prefix: string, a: seq<seq<string>>, b: seq<seq<string>>)
    ensures Written(prefix, a + b) == Written(prefix, a) + Written(prefix, b)
  {
  }

  lemma WrittenUnder(prefix: string, n: string, qs: seq<seq<string>>)
    ensures Written(prefix + "/" + n, qs) == Written(prefix, Under(n, qs))
  {
    forall i | 0 <= i < |qs|
      ensures prefix + "/" + n + Slashed(qs[i]) == prefix + Slashed([n] + qs[i])
    {
      assert ([n] + qs[i])[1..] == qs[i];
    }
  }

  /** GetPaths' strings are the component paths of the files, written with a leading "/" each. */
  lemma {:induction false} FlattenWritten(prefix: string, l: seq<Entry>)
    ensures Flatten(prefix, l) == Written(prefix, FilePaths(l))
    decreases l
  {
    if l != [] {
      var init, e := l[..|l| - 1], l[|l| - 1];
      FlattenWritten(prefix, init);
      if e.Dir? {
        FlattenWritten(prefix + "/" + e.name, e.children);
        WrittenUnder(prefix, e.name, FilePaths(e.children));
        WrittenConcat(prefix, FilePaths(init), Under(e.name, FilePaths(e.children)));
      } else {
        SlashedOne(e.name);
        var w := Written(prefix, [[e.name]]);
        assert |w| == 1 && w[0] == prefix + Slashed([e.name]);
        ConcatAssoc(prefix, "/", e.name);
        assert w == [prefix + "/" + e.name];
        WrittenConcat(prefix, FilePaths(init), [[e.name]]);
      }
    }
  }

  lemma SlashedOne(n: string)
    ensures Slashed([n]) == "/" + n
  {
    assert [n][1..] == [];
  }

  /** A written component path below `prefix` is prefix + "/" followed by a name, so never "//". */
  lemma SlashedPrefix(prefix: string, q: seq<string>)
    requires q != [] && ValidName(q[0])
    ensures var path := prefix + Slashed(q);
      HasPrefix(path, prefix + "/") && |path| > |prefix| + 1 && path[|prefix| + 1] != '/'
  {
    var path := prefix + Slashed(q);
    var tail := q[0] + Slashed(q[1..]);
    assert Slashed(q) == "/" + tail;
    assert path[|prefix| + 1] == q[0][0] by {
      assert Slashed(q)[1] == tail[0];
    }
    assert path[..|prefix| + 1] == prefix + "/" by {
      assert Slashed(q)[..1] == "/";
      PrefixConcat(prefix, Slashed(q), 1);
    }
    assert q[0][0] in q[0];
  }

  /** The first |a| + n elements of a + b are a followed by the first n of b. */
  lemma PrefixConcat<T>(a: seq<T>, b: seq<T>, n: int)
    requires 0 <= n <= |b|
    ensures (a + b)[..|a| + n] == a + b[..n]
  {
  }

  // ---- looking paths up -----------------------------------------------

  /** A one-component lookup finds the entry in the listing itself. */
  lemma LookupOne(l: seq<Entry>, n: string)
    ensures Lookup(l, [n]) == if Find(l, n) >= 0 then Some(l[Find(l, n)]) else None
  {
    assert [n][..0] == [] && [n][0] == n;
  }

  /** A lookup of two or more components descends into the first one. */
  lemma LookupHead(l: seq<Entry>, q: seq<string>)
    requires |q| >= 2
    ensures var k := Find(l, q[0]);
      Lookup(l, q) == if k >= 0 && l[k].Dir? then Lookup(l[k].children, q[1..]) else None
  {
    var p := q[..|q| - 1];
    assert p[0] == q[0] && p[1..] == q[1..][..|q[1..]| - 1];
    assert q[1..][|q[1..]| - 1] == q[|q| - 1];
  }

  /** A lookup that succeeds starts at an entry of the listing. */
  lemma LookupFound(l: seq<Entry>, q: seq<string>)
    requires Lookup(l, q).Some?
    ensures q != [] && Find(l, q[0]) >= 0
  {
    if |q| >= 2 {
      LookupHead(l, q);
    }
  }

  /** Appending an entry does not change a lookup that starts at an earlier entry. */
  lemma LookupExtend(l: seq<Entry>, e: Entry, q: seq<string>)
    requires q != [] && Find(l, q[0]) >= 0
    ensures Lookup(l + [e], q) == Lookup(l, q)
  {
    FindAppend(l, e, q[0]);
    var k := Find(l, q[0]);
    var l2 := l + [e];
    assert Find(l2, q[0]) == k && l2[k] == l[k];
    if |q| >= 2 {
      LookupHead(l, q);
      LookupHead(l2, q);
    } else {
      assert q == [q[0]];
      LookupOne(l, q[0]);
      LookupOne(l2, q[0]);
    }
  }

  /** The last entry of a listing with distinct names is found by its name. */
  lemma FindLast(l: seq<Entry>)
    requires l != [] && UniqueNames(l)
    ensures Find(l, l[|l| - 1].name) == |l| - 1
    ensures Find(l[..|l| - 1], l[|l| - 1].name) == -1
  {
    FindUnique(l, |l| - 1);
  }

  lemma ValidInit(l: seq<Entry>)
    requires l != [] && ValidListing(l)
    ensures ValidListing(l[..|l| - 1])
    ensures l[|l| - 1].Dir? ==> ValidListing(l[|l| - 1].children)
  {
    var init := l[..|l| - 1];
    assert forall i :: 0 <= i < |init| ==> init[i] == l[i];
  }

  /** Every component of a path that resolves in a valid tree is a valid name. */
  lemma {:induction false} LookupNames(l: seq<Entry>, q: seq<string>)
    requires ValidListing(l) && Lookup(l, q).Some?
    ensures forall j :: 0 <= j < |q| ==> ValidName(q[j])
    decreases |q|
  {
    LookupFound(l, q);
    var k := Find(l, q[0]);
    assert ValidName(q[0]);
    if |q| >= 2 {
      LookupHead(l, q);
      LookupNames(l[k].children, q[1..]);
      assert forall j :: 1 <= j < |q| ==> q[j] == q[1..][j - 1];
    }
  }

  // ---- what GetPaths finds -------------------------------------------------

  /** Every component path of FilePaths names a regular file of the listing. */
  lemma {:induction false} FilePathsSound(l: seq<Entry>)
    requires ValidListing(l)
    ensures forall i :: 0 <= i < |FilePaths(l)| ==> ReadFileAt(l, FilePaths(l)[i]).Some?
    decreases l
  {
    if l != [] {
      var init, e := l[..|l| - 1], l[|l| - 1];
      ValidInit(l);
      FindLast(l);
      FilePathsSound(init);
      forall i | 0 <= i < |FilePaths(init)|
        ensures ReadFileAt(l, FilePaths(init)[i]).Some?
      {
        var q := FilePaths(init)[i];
        LookupFound(init, q);
        Snoc(l);
        LookupExtend(init, e, q);
      }
      if e.Dir? {
        FilePathsSound(e.children);
        forall i | 0 <= i < |FilePaths(e.children)|
          ensures ReadFileAt(l, [e.name] + FilePaths(e.children)[i]).Some?
        {
          var q := FilePaths(e.children)[i];
          LookupFound(e.children, q);
          LookupHead(l, [e.name] + q);
          assert ([e.name] + q)[1..] == q;
        }
      } else {
        LookupOne(l, e.name);
      }
    }
  }

  /** Every regular file of a valid listing appears in FilePaths. */
  lemma {:induction false} FilePathsComplete(l: seq<Entry>, q: seq<string>)
    requires ValidListing(l) && ReadFileAt(l, q).Some?
    ensures q in FilePaths(l)
    decreases l
  {
    var init, e := l[..|l| - 1], l[|l| - 1];
    var a := FilePaths(init);
    var b := if e.Dir? then Under(e.name, FilePaths(e.children)) else [[e.name]];
    assert FilePaths(l) == a + b;
    LookupFound(l, q);
    ValidInit(l);
    if Find(l, q[0]) == |l| - 1 {
      if |q| >= 2 {
        LastDirRead(l, q);
        FilePathsComplete(e.children, q[1..]);
        UnderIn(e.name, FilePaths(e.children), q[1..]);
        assert q == [e.name] + q[1..];
      } else {
        LastFileRead(l, q);
      }
      assert q in b;
    } else {
      InitRead(l, q);
      FilePathsComplete(init, q);
      assert q in a;
    }
  }

  /** A read below the last entry of a listing is a read in that directory. */
  lemma LastDirRead(l: seq<Entry>, q: seq<string>)
    requires |q| >= 2 && ReadFileAt(l, q).Some? && l != [] && Find(l, q[0]) == |l| - 1
    ensures l[|l| - 1].Dir? && q[0] == l[|l| - 1].name && ReadFileAt(l[|l| - 1].children, q[1..]).Some?
  {
    LookupHead(l, q);
  }

  /** A one-component read that finds the last entry reads that file. */
  lemma LastFileRead(l: seq<Entry>, q: seq<string>)
    requires |q| == 1 && ReadFileAt(l, q).Some? && l != [] && Find(l, q[0]) == |l| - 1
    ensures l[|l| - 1].File? && q == [l[|l| - 1].name]
  {
    assert q == [q[0]];
    LookupOne(l, q[0]);
  }

  /** A read that does not start at the last entry reads in the listing without it. */
  lemma InitRead(l: seq<Entry>, q: seq<string>)
    requires l != [] && q != [] && ReadFileAt(l, q).Some?
    requires 0 <= Find(l, q[0]) != |l| - 1
    ensures ReadFileAt(l[..|l| - 1], q).Some?
  {
    var init, e := l[..|l| - 1], l[|l| - 1];
    Snoc(l);
    FindAppend(init, e, q[0]);
    LookupExtend(init, e, q);
  }

  lemma UnderIn(n: string, qs: seq<seq<string>>, r: seq<string>)
    requires r in qs
    ensures [n] + r in Under(n, qs)
  {
    var i :| 0 <= i < |qs| && qs[i] == r;
    assert Under(n, qs)[i] == [n] + r;
  }

  /** No element occurs twice. */
  predicate Distinct<T(==)>(s: seq<T>) {
    forall i, j :: 0 <= i < j < |s| ==> s[i] != s[j]
  }

  /** No element of `a` occurs in `b`. */
  predicate Disjoint<T(==)>(a: seq<T>, b: seq<T>) {
    forall i, j :: 0 <= i < |a| && 0 <= j < |b| ==> a[i] != b[j]
  }

  /** Two sequences without repeats and without common elements concatenate without repeats. */
  lemma DistinctConcat<T>(a: seq<T>, b: seq<T>)
    requires Distinct(a) && Distinct(b) && Disjoint(a, b)
    ensures Distinct(a + b)
  {
    var c := a + b;
    forall i, j | 0 <= i < j < |c|
      ensures c[i] != c[j]
    {
      if j < |a| {
        assert c[i] == a[i] && c[j] == a[j];
      } else if i >= |a| {
        assert c[i] == b[i - |a|] && c[j] == b[j - |a|];
      } else {
        assert c[i] == a[i] && c[j] == b[j - |a|];
      }
    }
  }

  lemma UnderDistinct(n: string, qs: seq<seq<string>>)
    requires Distinct(qs)
    ensures Distinct(Under(n, qs))
  {
    var r := Under(n, qs);
    forall i, j | 0 <= i < j < |r|
      ensures r[i] != r[j]
    {
      assert r[i][1..] == qs[i] && r[j][1..] == qs[j];
    }
  }

  /** The paths of the last entry begin with its name, which no earlier entry has. */
  lemma LastApart(l: seq<Entry>)
    requires l != [] && ValidListing(l)
    ensures var init, e := l[..|l| - 1], l[|l| - 1];
      var a := FilePaths(init);
      var b := if e.Dir? then Under(e.name, FilePaths(e.children)) else [[e.name]];
      Disjoint(a, b)
  {
    var init, e := l[..|l| - 1], l[|l| - 1];
    ValidInit(l);
    FindLast(l);
    FilePathsSound(init);
    var a := FilePaths(init);
    var b := if e.Dir? then Under(e.name, FilePaths(e.children)) else [[e.name]];
    forall i, j | 0 <= i < |a| && 0 <= j < |b|
      ensures a[i] != b[j]
    {
      LookupFound(init, a[i]);
      assert b[j][0] == e.name;
    }
  }

  /** In a valid listing no file is reached by two component paths. */
  lemma {:induction false} FilePathsDistinct(l: seq<Entry>)
    requires ValidListing(l)
    ensures Distinct(FilePaths(l))
    decreases l
  {
    if l != [] {
      var init, e := l[..|l| - 1], l[|l| - 1];
      ValidInit(l);
      FilePathsDistinct(init);
      LastApart(l);
      if e.Dir? {
        FilePathsDistinct(e.children);
        UnderDistinct(e.name, FilePaths(e.children));
        DistinctConcat(FilePaths(init), Under(e.name, FilePaths(e.children)));
      } else {
        DistinctConcat(FilePaths(init), [[e.name]]);
      }
    }
  }

  // ---- from components back to strings ------------------------------------

  /** Writing a component path below a prefix adds exactly those components. */
  lemma {:induction false} PathOfSlashed(a: string, q: seq<string>)
    requires forall j :: 0 <= j < |q| ==> ValidName(q[j])
    ensures PathOf(a + Slashed(q)) == PathOf(a) + q
    decreases |q|
  {
    if q == [] {
      assert a + Slashed(q) == a;
    } else {
      var rest := Slashed(q[1..]);
      var b := a + "/" + q[0];
      assert a + Slashed(q) == b + rest by {
        assert Slashed(q) == "/" + q[0] + rest;
      }
      assert PathOf(b + rest) == PathOf(b) + q[1..] by {
        assert forall j :: 0 <= j < |q[1..]| ==> q[1..][j] == q[j + 1];
        PathOfSlashed(b, q[1..]);
      }
      assert PathOf(b) == PathOf(a) + [q[0]] by {
        PathChild(a, q[0]);
      }
      assert [q[0]] + q[1..] == q;
    }
  }

  /** Distinct component paths of valid names are written as distinct strings. */
  lemma SlashedInjective(prefix: string, q: seq<string>, r: seq<string>)
    requires forall j :: 0 <= j < |q| ==> ValidName(q[j])
    requires forall j :: 0 <= j < |r| ==> ValidName(r[j])
    requires prefix + Slashed(q) == prefix + Slashed(r)
    ensures q == r
  {
    PathOfSlashed(prefix, q);
    PathOfSlashed(prefix, r);
    assert PathOf(prefix) + q == PathOf(prefix) + r;
    assert q == (PathOf(prefix) + q)[|PathOf(prefix)|..];
    assert r == (PathOf(prefix) + r)[|PathOf(prefix)|..];
  }

  /** Reading below a directory is reading in its listing. */
  lemma {:induction false} ReadUnder(root: seq<Entry>, base: seq<string>, q: seq<string>)
    requires ListDir(root, base).Some? && q != []
    ensures ReadFileAt(root, base + q) == ReadFileAt(ListDir(root, base).value, q)
    decreases base
  {
    if base != [] {
      var k := Find(root, base[0]);
      LookupHead(root, base + q);
      assert (base + q)[0] == base[0] && (base + q)[1..] == base[1..] + q;
      assert Lookup(root, base + q) == Lookup(root[k].children, base[1..] + q);
      ReadUnder(root[k].children, base[1..], q);
    } else {
      assert base + q == q;
    }
  }

  // ---- GetPaths ---------------------------------------------------------

  /** ioutil.ReadDir as the deploy code sees it: no entries on any error. */
  function Listing(root: seq<Entry>, dir: string): seq<Entry> {
    match ListDir(root, PathOf(dir))
      case Some(x) => x
      case None => []
  }

  /** GetPaths(prefix) on the tree `root`: the files below public + prefix. */
  function SitePaths(root: seq<Entry>, prefix: string): seq<string> {
    Flatten(prefix, Listing(root, Site.PubSiteDir + prefix))
  }

  /** GetPaths' component paths and the listing they were read from. */
  lemma SitePathsWritten(root: seq<Entry>, prefix: string)
    requires ValidListing(root)
    ensures var l := Listing(root, Site.PubSiteDir + prefix);
      ValidListing(l) && SitePaths(root, prefix) == Written(prefix, FilePaths(l))
  {
    var p := PathOf(Site.PubSiteDir + prefix);
    if ListDir(root, p).Some? {
      ListValid(root, p);
    }
    FlattenWritten(prefix, Listing(root, Site.PubSiteDir + prefix));
  }

  /** A file of the listing at public + prefix, written as GetPaths writes it, reads back from the tree. */
  lemma WrittenReads(root: seq<Entry>, prefix: string, q: seq<string>)
    requires ListDir(root, PathOf(Site.PubSiteDir + prefix)).Some?
    requires ValidListing(ListDir(root, PathOf(Site.PubSiteDir + prefix)).value)
    requires ReadFileAt(ListDir(root, PathOf(Site.PubSiteDir + prefix)).value, q).Some?
    ensures ReadFileAt(root, PathOf(Site.PubSiteDir + (prefix + Slashed(q)))).Some?
  {
    var base := PathOf(Site.PubSiteDir + prefix);
    var l := ListDir(root, base).value;
    LookupFound(l, q);
    LookupNames(l, q);
    ReadUnder(root, base, q);
    ConcatAssoc(Site.PubSiteDir, prefix, Slashed(q));
    PathOfSlashed(Site.PubSiteDir + prefix, q);
  }

  /**
   * Every path GetPaths returns is prefix + "/" + something and names a
   * regular file below public + prefix; no directory appears.
   */
  lemma SitePathsFiles(root: seq<Entry>, prefix: string, i: int)
    requires ValidListing(root) && 0 <= i < |SitePaths(root, prefix)|
    ensures var path := SitePaths(root, prefix)[i];
      HasPrefix(path, prefix + "/") && |path| > |prefix| + 1 && path[|prefix| + 1] != '/' &&
      ReadFileAt(root, PathOf(Site.PubSiteDir + path)).Some?
  {
    SitePathsShape(root, prefix, i);
    SitePathsWritten(root, prefix);
    var l := Listing(root, Site.PubSiteDir + prefix);
    FilePathsSound(l);
    var q := FilePaths(l)[i];
    LookupFound(l, q);
    assert l != [];
    WrittenReads(root, prefix, q);
  }

  /** The form of a path GetPaths returns: prefix, "/", then a name. */
  lemma SitePathsShape(root: seq<Entry>, prefix: string, i: int)
    requires ValidListing(root) && 0 <= i < |SitePaths(root, prefix)|
    ensures var path := SitePaths(root, prefix)[i];
      HasPrefix(path, prefix + "/") && |path| > |prefix| + 1 && path[|prefix| + 1] != '/'
  {
    SitePathsWritten(root, prefix);
    var l := Listing(root, Site.PubSiteDir + prefix);
    FilePathsSound(l);
    var q := FilePaths(l)[i];
    LookupFound(l, q);
    LookupNames(l, q);
    SlashedPrefix(prefix, q);
  }

  /** A path of GetPaths("") starts with one "/" and then a name. */
  lemma RootPathSlash(root: seq<Entry>, i: int)
    requires ValidListing(root) && 0 <= i < |SitePaths(root, "")|
    ensures var path := SitePaths(root, "")[i]; |path| > 1 && path[0] == '/' && path[1] != '/'
  {
    SitePathsShape(root, "", i);
    SlashFirst(SitePaths(root, "")[i]);
  }

  lemma SlashFirst(path: string)
    requires HasPrefix(path, "" + "/") && |path| > 1 && path[1] != '/'
    ensures path[0] == '/'
  {
    assert "" + "/" == "/";
    assert path[..1] == "/";
  }

  /** Every regular file below public + prefix appears in GetPaths. */
  lemma SitePathsComplete(root: seq<Entry>, prefix: string, q: seq<string>)
    requires ValidListing(root) && q != []
    requires ReadFileAt(root, PathOf(Site.PubSiteDir + prefix) + q).Some?
    ensures prefix + Slashed(q) in SitePaths(root, prefix)
  {
    var base := PathOf(Site.PubSiteDir + prefix);
    LookupFound(root, base + q);
    var l := Listing(root, Site.PubSiteDir + prefix);
    if ListDir(root, base).None? {
      NoListingNoFile(root, base, q);
    }
    ReadUnder(root, base, q);
    SitePathsWritten(root, prefix);
    FilePathsComplete(l, q);
    var i :| 0 <= i < |FilePaths(l)| && FilePaths(l)[i] == q;
    assert Written(prefix, FilePaths(l))[i] == prefix + Slashed(q);
  }

  /** Nothing can be read below a path that is not a directory. */
  lemma {:induction false} NoListingNoFile(root: seq<Entry>, base: seq<string>, q: seq<string>)
    requires ListDir(root, base).None? && q != []
    ensures ReadFileAt(root, base + q).None?
    decreases base
  {
    assert base != [];
    var k := Find(root, base[0]);
    LookupHead(root, base + q);
    assert (base + q)[0] == base[0] && (base + q)[1..] == base[1..] + q;
    if k >= 0 && root[k].Dir? {
      NoListingNoFile(root[k].children, base[1..], q);
    }
  }

  /** On a valid tree GetPaths never returns the same path twice. */
  lemma SitePathsDistinct(root: seq<Entry>, prefix: string)
    requires ValidListing(root)
    ensures Distinct(SitePaths(root, prefix))
  {
    SitePathsWritten(root, prefix);
    var l := Listing(root, Site.PubSiteDir + prefix);
    var qs := FilePaths(l);
    FilePathsDistinct(l);
    FilePathsSound(l);
    forall i, j | 0 <= i < j < |qs|
      ensures prefix + Slashed(qs[i]) != prefix + Slashed(qs[j])
    {
      LookupNames(l, qs[i]);
      LookupNames(l, qs[j]);
      if prefix + Slashed(qs[i]) == prefix + Slashed(qs[j]) {
        SlashedInjective(prefix, qs[i], qs[j]);
      }
    }
  }

  // ---- the walks over the disk -------------------------------------------

  /** The listing of a subdirectory, read by its own path, is that directory's children. */
  lemma ChildRead(root: seq<Entry>, dir: string, f: Entry)
    requires ValidListing(root) && f in Listing(root, dir) && f.Dir?
    ensures Listing(root, dir + "/" + f.name) == f.children
  {
    var l := Listing(root, dir);
    var p := PathOf(dir);
    assert ListDir(root, p).Some?;
    ListValid(root, p);
    var i :| 0 <= i < |l| && l[i] == f;
    FindUnique(l, i);
    PathChild(dir, f.name);
    ListChild(root, p, f.name);
  }

  /** The subdirectory f of base + path, read by base + its relative path. */
  lemma SubListing(root: seq<Entry>, base: string, path: string, f: Entry)
    requires ValidListing(root) && f in Listing(root, base + path) && f.Dir?
    ensures Listing(root, base + (path + "/" + f.name)) == f.children
  {
    ChildRead(root, base + path, f);
    ConcatAssoc(base, path, "/");
    ConcatAssoc(base, path + "/", f.name);
  }

  /** GetPaths: every regular file below public + prefix, as prefix + "/" + its relative path. */
  method GetPaths(disk: LocalDisk, prefix: string) returns (paths: seq<string>)
    requires disk.Valid()
    ensures paths == SitePaths(disk.root, prefix)
    decreases disk.ReadDir(Site.PubSiteDir + prefix), 1
  {
    var files := disk.ReadDir(Site.PubSiteDir + prefix);
    assert files == Listing(disk.root, Site.PubSiteDir + prefix);
    paths := [];
    var i := 0;
    while i < |files|
      invariant 0 <= i <= |files|
      invariant paths == Flatten(prefix, files[..i])
    {
      var f := files[i];
      FlattenStep(prefix, files, i);
      if f.Dir? {
        var sub := SubPaths(disk, prefix, f, files);
        paths := paths + sub;
      } else {
        paths := paths + [prefix + "/" + f.name];
      }
      i := i + 1;
    }
    assert files[..i] == files;
  }

  /** One more listing entry adds its own paths after the ones before it. */
  lemma FlattenStep(prefix: string, files: seq<Entry>, i: int)
    requires 0 <= i < |files|
    ensures Flatten(prefix, files[..i + 1]) == Flatten(prefix, files[..i]) +
      (if files[i].Dir? then Flatten(prefix + "/" + files[i].name, files[i].children) else [prefix + "/" + files[i].name])
  {
    assert files[..i + 1][..i] == files[..i];
  }

  /** GetPaths' recursive call for one subdirectory. */
  method SubPaths(disk: LocalDisk, prefix: string, f: Entry, ghost files: seq<Entry>) returns (paths: seq<string>)
    requires disk.Valid() && files == disk.ReadDir(Site.PubSiteDir + prefix) && f in files && f.Dir?
    ensures paths == Flatten(prefix + "/" + f.name, f.children)
    decreases files, 0
  {
    SubListing(disk.root, Site.PubSiteDir, prefix, f);
    paths := GetPaths(disk, prefix + "/" + f.name);
    FlattenWritten(prefix + "/" + f.name, f.children);
  }

  /** The jobs for a list of paths, all below one local prefix and with one force flag. */
  function Jobs(localPrefix: string, paths: seq<string>, force: bool): (jobs: seq<PutJob>)
    ensures |jobs| == |paths|
    ensures forall i :: 0 <= i < |paths| ==> jobs[i] == PutJob(localPrefix, paths[i], force)
  {
    seq(|paths|, i requires 0 <= i < |paths| => PutJob(localPrefix, paths[i], force))
  }

  /** The jobs DeployDirs sends for localPrefix + path, in the order it sends them. */
  function DeployJobs(root: seq<Entry>, localPrefix: string, path: string, force: bool): seq<PutJob> {
    Jobs(localPrefix, Flatten(path, Listing(root, localPrefix + path)), force)
  }

  /** DeployDirs without its channel: the jobs it sends, one per regular file, in order. */
  method DeployDirs(disk: LocalDisk, localPrefix: string, path: string, force: bool) returns (jobs: seq<PutJob>)
    requires disk.Valid()
    ensures jobs == DeployJobs(disk.root, localPrefix, path, force)
    decreases disk.ReadDir(localPrefix + path), 1
  {
    var files := disk.ReadDir(localPrefix + path);
    assert files == Listing(disk.root, localPrefix + path);
    jobs := [];
    var i := 0;
    while i < |files|
      invariant 0 <= i <= |files|
      invariant jobs == Jobs(localPrefix, Flatten(path, files[..i]), force)
    {
      var f := files[i];
      JobsStep(localPrefix, path, files, i, force);
      if f.Dir? {
        var sub := SubJobs(disk, localPrefix, path, force, f, files);
        jobs := jobs + sub;
      } else {
        jobs := jobs + [PutJob(localPrefix, path + "/" + f.name, force)];
      }
      i := i + 1;
    }
    assert files[..i] == files;
  }

  /** DeployDirs' recursive call for one subdirectory. */
  method SubJobs(disk: LocalDisk, localPrefix: string, path: string, force: bool, f: Entry, ghost files: seq<Entry>)
    returns (jobs: seq<PutJob>)
    requires disk.Valid() && files == disk.ReadDir(localPrefix + path) && f in files && f.Dir?
    ensures jobs == Jobs(localPrefix, Flatten(path + "/" + f.name, f.children), force)
    decreases files, 0
  {
    SubListing(disk.root, localPrefix, path, f);
    jobs := DeployDirs(disk, localPrefix, path + "/" + f.name, force);
  }

  /** One more listing entry adds its own jobs after the ones before it. */
  lemma JobsStep(localPrefix: string, path: string, files: seq<Entry>, i: int, force: bool)
    requires 0 <= i < |files|
    ensures Jobs(localPrefix, Flatten(path, files[..i + 1]), force) ==
      Jobs(localPrefix, Flatten(path, files[..i]), force) +
        (if files[i].Dir? then Jobs(localPrefix, Flatten(path + "/" + files[i].name, files[i].children), force)
         else [PutJob(localPrefix, path + "/" + files[i].name, force)])
  {
    var f := files[i];
    assert files[..i + 1][..i] == files[..i];
    if f.Dir? {
      JobsConcat(localPrefix, Flatten(path, files[..i]), Flatten(path + "/" + f.name, f.children), force);
    } else {
      JobsConcat(localPrefix, Flatten(path, files[..i]), [path + "/" + f.name], force);
    }
  }

  lemma JobsConcat(localPrefix: string, a: seq<string>, b: seq<string>, force: bool)
    ensures Jobs(localPrefix, a + b, force) == Jobs(localPrefix, a, force) + Jobs(localPrefix, b, force)
  {
  }

  /**
   * Deploying the site sends one job per path that GetPaths("") returns, in
   * the same order, each below public and carrying the caller's force flag.
   */
  lemma DeployJobsArePaths(root: seq<Entry>, force: bool)
    ensures var jobs := DeployJobs(root, Site.PubSiteDir, "", force); var paths := SitePaths(root, "");
      |jobs| == |paths| &&
      forall i :: 0 <= i < |jobs| ==> jobs[i].path == paths[i] && jobs[i].force == force && jobs[i].localPrefix == Site.PubSiteDir
  {
    assert Site.PubSiteDir + "" == Site.PubSiteDir;
  }

  /**
   * A job is sent for a list of paths iff it carries the caller's prefix and
   * force flag and one of the paths; distinct paths give distinct jobs.
   */
  lemma JobsMembers(localPrefix: string, paths: seq<string>, force: bool)
    ensures forall j :: j in Jobs(localPrefix, paths, force) <==>
      j.localPrefix == localPrefix && j.force == force && j.path in paths
    ensures Distinct(paths) ==> Distinct(Jobs(localPrefix, paths, force))
  {
    var jobs := Jobs(localPrefix, paths, force);
    forall j: PutJob | j.localPrefix == localPrefix && j.force == force && j.path in paths
      ensures j in jobs
    {
      var i :| 0 <= i < |paths| && paths[i] == j.path;
      assert jobs[i] == j;
    }
  }

  /** A deploy sends one job for each file of the site and no job twice. */
  lemma DeployJobsOnce(root: seq<Entry>, force: bool)
    requires ValidListing(root)
    ensures var jobs := DeployJobs(root, Site.PubSiteDir, "", force);
      Distinct(jobs) &&
      forall j :: j in jobs <==> j == PutJob(Site.PubSiteDir, j.path, force) && j.path in SitePaths(root, "")
  {
    SitePathsDistinct(root, "");
    assert Site.PubSiteDir + "" == Site.PubSiteDir;
    JobsMembers(Site.PubSiteDir, SitePaths(root, ""), force);
  }

  // ---- running the jobs ------------------------------------------------

  /** How a run against the driver ended. */
  datatype Run =
    | Ran(logged: seq<string>)  // every job handled; the errors it logged
    | Unconfigured              // no driver name set: nothing is uploaded
    | Panicked                  // a call reached the unregistered, nil driver
    | Blocked                   // DeployDirs waits forever on a channel no worker serves
    | NotReached                // the program ended before this call

  /** The bucket and the error log after running jobs one after another. */
  datatype PutState = PutState(objects: map<string, S3.Object>, logged: seq<string>)

  /** The local bytes a job uploads. */
  function JobContent(root: seq<Entry>, job: PutJob): Option<Bytes> {
    ReadFileAt(root, PathOf(job.localPrefix + "/" + job.path))
  }

  /** One job: PutFile, with its error logged and never passed on. */
  function PutStep(st: PutState, root: seq<Entry>, job: PutJob, hash: Bytes -> string, faults: S3.Faults): PutState {
    var r := S3.PutDecision(st.objects, JobContent(root, job), job.path, job.force, hash, faults);
    var err := S3.PutError(r);
    PutState(S3.PutApply(st.objects, job.path, r),
             st.logged + if err.Some? then [job.localPrefix + job.path + " " + err.value] else [])
  }

  function PutAll(objects: map<string, S3.Object>, root: seq<Entry>, jobs: seq<PutJob>,
                  hash: Bytes -> string, faults: S3.Faults): PutState
    decreases |jobs|
  {
    if jobs == [] then PutState(objects, [])
    else PutStep(PutAll(objects, root, jobs[..|jobs| - 1], hash, faults), root, jobs[|jobs| - 1], hash, faults)
  }

  /**
   * DeployDirs' worker pool running PutFiles, to the end. The `workers`
   * setting starts one goroutine when it is 0 and none when it is negative,
   * and DeployDirs then waits for `workers` done signals. A job that no
   * worker takes blocks its sender. With no driver name every worker returns
   * at once without a signal, so the first job or the wait blocks; with an
   * unregistered name the first job taken panics; otherwise the jobs are put
   * in order, and each error is logged and never passed on.
   */
  method PutFiles(bucket: S3.Bucket, disk: LocalDisk, drv: string, workers: int, jobs: seq<PutJob>,
                  hash: Bytes -> string, faults: S3.Faults) returns (run: Run)
    modifies bucket
    ensures drv == "" ==> (bucket.objects == old(bucket.objects) &&
      run == (if jobs == [] && workers <= 0 then Unconfigured else Blocked))
    ensures drv != "" && jobs != [] && workers < 0 ==> run == Blocked && bucket.objects == old(bucket.objects)
    ensures drv != "" && drv != S3Driver ==> (bucket.objects == old(bucket.objects) &&
      run == (if jobs == [] then Ran([]) else if workers < 0 then Blocked else Panicked))
    ensures drv == S3Driver && (jobs == [] || workers >= 0) ==>
      var st := PutAll(old(bucket.objects), disk.root, jobs, hash, faults);
      bucket.objects == st.objects && run == Ran(st.logged)
  {
    if drv == "" {
      if jobs == [] && workers <= 0 {
        return Unconfigured;
      }
      return Blocked;
    }
    if jobs == [] {
      return Ran([]);
    }
    if workers < 0 {
      return Blocked;
    }
    if drv != S3Driver {
      return Panicked;
    }
    var logged := PutJobs(bucket, disk, jobs, hash, faults);
    run := Ran(logged);
  }

  /** The workers' loop over the jobs channel against the S3 driver: each job is put, and its error logged. */
  method PutJobs(bucket: S3.Bucket, disk: LocalDisk, jobs: seq<PutJob>, hash: Bytes -> string, faults: S3.Faults)
    returns (logged: seq<string>)
    modifies bucket
    ensures PutAll(old(bucket.objects), disk.root, jobs, hash, faults) == PutState(bucket.objects, logged)
  {
    logged := [];
    var i := 0;
    while i < |jobs|
      invariant 0 <= i <= |jobs|
      invariant PutAll(old(bucket.objects), disk.root, jobs[..i], hash, faults) == PutState(bucket.objects, logged)
    {
      var job := jobs[i];
      assert jobs[..i + 1][..i] == jobs[..i];
      var err := bucket.PutFile(disk, job.localPrefix, job.path, job.force, hash, faults);
      if err.Some? {
        logged := logged + [job.localPrefix + job.path + " " + err.value];
      } else {
        logged := logged + [];
      }
      i := i + 1;
    }
    assert jobs[..i] == jobs;
  }

  function PathSet(paths: seq<string>): set<string> {
    set p | p in paths
  }

  /**
   * Flush: hand GetPaths("") to the driver's FlushFiles; its error is only
   * logged. A driver other than s3 is nil, and the call panics before the
   * bucket is touched.
   */
  method Flush(disk: LocalDisk, bucket: S3.Bucket, drv: string, order: seq<string>, faults: S3.Faults) returns (run: Run)
    modifies bucket
    requires disk.Valid()
    ensures drv != S3Driver ==> run == Panicked && bucket.objects == old(bucket.objects)
    ensures drv == S3Driver ==>
      var w := S3.FlushWalk(PathSet(SitePaths(disk.root, "")), order, faults);
      bucket.objects == old(bucket.objects) - w.deleted &&
      run == Ran(if w.err.Some? then [w.err.value] else [])
  {
    var paths := GetPaths(disk, "");
    if drv != S3Driver {
      return Panicked;
    }
    var err := bucket.FlushFiles(paths, order, faults);
    run := Ran(if err.Some? then [err.value] else []);
  }

  /**
   * Deploy: send every file of public to the driver, then flush what no
   * longer belongs. `order` is the order in which the listing returns the
   * bucket's keys once the uploads are done. A panic or a blocked wait during
   * the uploads ends the program before Flush.
   */
  method Deploy(disk: LocalDisk, bucket: S3.Bucket, drv: string, workers: int, force: bool,
                hash: Bytes -> string, faults: S3.Faults, order: seq<string>) returns (put: Run, flush: Run)
    modifies bucket
    requires disk.Valid()
    ensures put == Panicked || put == Blocked ==> flush == NotReached && bucket.objects == old(bucket.objects)
    ensures drv != S3Driver && put != Panicked && put != Blocked ==>
      flush == Panicked && bucket.objects == old(bucket.objects)
    ensures drv == S3Driver && put != Blocked ==>
      var st := PutAll(old(bucket.objects), disk.root, DeployJobs(disk.root, Site.PubSiteDir, "", force), hash, faults);
      var w := S3.FlushWalk(PathSet(SitePaths(disk.root, "")), order, faults);
      put == Ran(st.logged) && flush == Ran(if w.err.Some? then [w.err.value] else []) &&
      bucket.objects == st.objects - w.deleted
  {
    var jobs := DeployDirs(disk, Site.PubSiteDir, "", force);
    put := PutFiles(bucket, disk, drv, workers, jobs, hash, faults);
    if put == Panicked || put == Blocked {
      return put, NotReached;
    }
    flush := Flush(disk, bucket, drv, order, faults);
  }

  // ---- what a deploy leaves in the bucket -----------------------------------

  /** Every path GetPaths("") returns is "/" + the key its file is stored under, so Flush keeps that key. */
  lemma DeployedKept(root: seq<Entry>, i: int)
    requires ValidListing(root) && 0 <= i < |SitePaths(root, "")|
    ensures var p := SitePaths(root, "")[i];
      "/" + S3.Key(p) == p && !S3.Stale(S3.Key(p), PathSet(SitePaths(root, "")))
  {
    RootPathSlash(root, i);
  }

  /** A separator before a path that already starts with one changes nothing. */
  lemma DoubleSlash(a: string, p: string)
    requires |p| > 0 && p[0] == '/'
    ensures PathOf(a + "/" + p) == PathOf(a + p)
  {
    PathJoin(a, p);
    assert a + p == a + "/" + p[1..];
    PathJoin(a, p[1..]);
    assert p == "" + "/" + p[1..];
    PathJoin("", p[1..]);
    PathOfEmpty();
  }

  /** The object an upload of this job's bytes stores. */
  predicate HoldsUpload(m: map<string, S3.Object>, root: seq<Entry>, job: PutJob, hash: Bytes -> string)
    requires JobContent(root, job).Some?
  {
    var b := JobContent(root, job).value;
    var h := S3.Headers(job.path);
    S3.Key(job.path) in m && m[S3.Key(job.path)] == S3.Object(b, Some(S3.Quoted(hash(b))), h.0, h.1)
  }

  /** The keys of a set of paths. */
  function KeySet(paths: seq<string>): set<string> {
    set p | p in paths :: S3.Key(p)
  }

  /** The keys a list of jobs uploads to. */
  function JobKeys(jobs: seq<PutJob>): set<string>
    decreases |jobs|
  {
    if jobs == [] then {} else JobKeys(jobs[..|jobs| - 1]) + {S3.Key(jobs[|jobs| - 1].path)}
  }

  /** A forced job whose file can be read, without failures, stores its bytes and logs nothing. */
  lemma PutStepForced(st: PutState, root: seq<Entry>, job: PutJob, hash: Bytes -> string)
    requires job.force && JobContent(root, job).Some?
    ensures var b := JobContent(root, job).value; var h := S3.Headers(job.path);
      PutStep(st, root, job, hash, S3.NoFaults) ==
        PutState(st.objects[S3.Key(job.path) := S3.Object(b, Some(S3.Quoted(hash(b))), h.0, h.1)], st.logged)
  {
    var c := JobContent(root, job);
    var b := c.value;
    var h := S3.Headers(job.path);
    var r := S3.PutDecision(st.objects, c, job.path, job.force, hash, S3.NoFaults);
    assert r == S3.Uploaded(S3.Object(b, Some(S3.Quoted(hash(b))), h.0, h.1));
    assert S3.PutError(r) == None;
    assert st.logged + [] == st.logged;
  }

  /** An upload to another key leaves a job's object in place. */
  lemma HoldsAfter(m: map<string, S3.Object>, k: string, o: S3.Object, root: seq<Entry>, job: PutJob, hash: Bytes -> string)
    requires JobContent(root, job).Some? && HoldsUpload(m, root, job, hash) && S3.Key(job.path) != k
    ensures HoldsUpload(m[k := o], root, job, hash)
  {
  }

  /**
   * Forced jobs whose files can be read and whose keys differ, run without
   * failures: nothing is logged, every job's object holds its bytes, and
   * the bucket gains exactly the jobs' keys.
   */
  lemma {:induction false} PutAllForced(objects: map<string, S3.Object>, root: seq<Entry>, jobs: seq<PutJob>,
                                        hash: Bytes -> string)
    requires forall i :: 0 <= i < |jobs| ==> jobs[i].force && JobContent(root, jobs[i]).Some?
    requires forall i, j :: 0 <= i < j < |jobs| ==> S3.Key(jobs[i].path) != S3.Key(jobs[j].path)
    ensures var st := PutAll(objects, root, jobs, hash, S3.NoFaults);
      st.logged == [] &&
      (forall i :: 0 <= i < |jobs| ==> HoldsUpload(st.objects, root, jobs[i], hash)) &&
      st.objects.Keys == objects.Keys + JobKeys(jobs)
    decreases |jobs|
  {
    if jobs != [] {
      var init, job := jobs[..|jobs| - 1], jobs[|jobs| - 1];
      assert forall i :: 0 <= i < |init| ==> init[i] == jobs[i];
      PutAllForced(objects, root, init, hash);
      var st0 := PutAll(objects, root, init, hash, S3.NoFaults);
      assert forall i :: 0 <= i < |jobs| - 1 ==> HoldsUpload(st0.objects, root, jobs[i], hash);
      PutStepForced(st0, root, job, hash);
      HoldsLast(st0.objects, root, job, hash);
      var b := JobContent(root, job).value;
      var h := S3.Headers(job.path);
      var o := S3.Object(b, Some(S3.Quoted(hash(b))), h.0, h.1);
      ForcedHolds(st0.objects, root, jobs, hash, S3.Key(job.path), o);
      ForcedKeys(st0.objects, objects, jobs, S3.Key(job.path), o);
    }
  }

  /** The step of PutAllForced: one more forced upload, of object `o` to a key `k` of its own, keeps the earlier objects. */
  lemma ForcedHolds(m: map<string, S3.Object>, root: seq<Entry>, jobs: seq<PutJob>, hash: Bytes -> string,
                    k: string, o: S3.Object)
    requires jobs != [] && forall i :: 0 <= i < |jobs| ==> JobContent(root, jobs[i]).Some?
    requires forall i :: 0 <= i < |jobs| - 1 ==> S3.Key(jobs[i].path) != k
    requires HoldsUpload(m[k := o], root, jobs[|jobs| - 1], hash)
    requires forall i :: 0 <= i < |jobs| - 1 ==> HoldsUpload(m, root, jobs[i], hash)
    ensures forall i :: 0 <= i < |jobs| ==> HoldsUpload(m[k := o], root, jobs[i], hash)
  {
    forall i | 0 <= i < |jobs|
      ensures HoldsUpload(m[k := o], root, jobs[i], hash)
    {
      if i < |jobs| - 1 {
        HoldsAfter(m, k, o, root, jobs[i], hash);
      }
    }
  }

  /** The step of PutAllForced on the key set: it gains the last job's key. */
  lemma ForcedKeys(m: map<string, S3.Object>, objects: map<string, S3.Object>, jobs: seq<PutJob>,
                   k: string, o: S3.Object)
    requires jobs != [] && k == S3.Key(jobs[|jobs| - 1].path)
    requires m.Keys == objects.Keys + JobKeys(jobs[..|jobs| - 1])
    ensures m[k := o].Keys == objects.Keys + JobKeys(jobs)
  {
  }

  /** A forced upload of a job's file leaves its object in place. */
  lemma HoldsLast(m: map<string, S3.Object>, root: seq<Entry>, job: PutJob, hash: Bytes -> string)
    requires JobContent(root, job).Some?
    ensures var b := JobContent(root, job).value; var h := S3.Headers(job.path);
      HoldsUpload(m[S3.Key(job.path) := S3.Object(b, Some(S3.Quoted(hash(b))), h.0, h.1)], root, job, hash)
  {
  }

  /** The deploy jobs read the files GetPaths found and have pairwise different keys. */
  lemma DeployJobsReady(root: seq<Entry>)
    requires ValidListing(root)
    ensures var jobs := DeployJobs(root, Site.PubSiteDir, "", true); var paths := SitePaths(root, "");
      (forall i :: 0 <= i < |jobs| ==>
        jobs[i].force && JobContent(root, jobs[i]) == ReadFileAt(root, PathOf(Site.PubSiteDir + paths[i])) &&
        JobContent(root, jobs[i]).Some?) &&
      (forall i, j :: 0 <= i < j < |jobs| ==> S3.Key(jobs[i].path) != S3.Key(jobs[j].path))
  {
    var jobs := DeployJobs(root, Site.PubSiteDir, "", true);
    var paths := SitePaths(root, "");
    DeployJobsArePaths(root, true);
    forall i | 0 <= i < |jobs|
      ensures JobContent(root, jobs[i]) == ReadFileAt(root, PathOf(Site.PubSiteDir + paths[i]))
      ensures JobContent(root, jobs[i]).Some?
    {
      JobReads(root, jobs[i], paths, i);
    }
    SitePathsDistinct(root, "");
    forall i | 0 <= i < |paths| ensures "/" + S3.Key(paths[i]) == paths[i] {
      DeployedKept(root, i);
    }
    DistinctKeys(jobs, paths);
  }

  /** A deploy job reads the file its path names. */
  lemma JobReads(root: seq<Entry>, job: PutJob, paths: seq<string>, i: int)
    requires ValidListing(root) && paths == SitePaths(root, "") && 0 <= i < |paths|
    requires job.path == paths[i] && job.localPrefix == Site.PubSiteDir
    ensures JobContent(root, job) == ReadFileAt(root, PathOf(Site.PubSiteDir + paths[i]))
    ensures JobContent(root, job).Some?
  {
    RootPathSlash(root, i);
    DoubleSlash(Site.PubSiteDir, paths[i]);
    SitePathsFiles(root, "", i);
  }

  /** Distinct paths, each a "/" before its key, give jobs with distinct keys. */
  lemma DistinctKeys(jobs: seq<PutJob>, paths: seq<string>)
    requires |jobs| == |paths| && forall i :: 0 <= i < |jobs| ==> jobs[i].path == paths[i]
    requires Distinct(paths) && forall i :: 0 <= i < |paths| ==> "/" + S3.Key(paths[i]) == paths[i]
    ensures forall i, j :: 0 <= i < j < |jobs| ==> S3.Key(jobs[i].path) != S3.Key(jobs[j].path)
  {
    forall i, j | 0 <= i < j < |jobs|
      ensures S3.Key(jobs[i].path) != S3.Key(jobs[j].path)
    {
      assert "/" + S3.Key(paths[i]) == paths[i] && "/" + S3.Key(paths[j]) == paths[j];
    }
  }

  /** The keys of the deploy jobs are the keys of GetPaths(""). */
  lemma DeployKeys(root: seq<Entry>)
    ensures JobKeys(DeployJobs(root, Site.PubSiteDir, "", true)) == KeySet(SitePaths(root, ""))
  {
    DeployJobsArePaths(root, true);
    JobKeysOfPaths(DeployJobs(root, Site.PubSiteDir, "", true), SitePaths(root, ""));
  }

  /** Jobs made from paths, one each and in order, upload to the paths' keys. */
  lemma JobKeysOfPaths(jobs: seq<PutJob>, paths: seq<string>)
    requires |jobs| == |paths| && forall i :: 0 <= i < |jobs| ==> jobs[i].path == paths[i]
    ensures JobKeys(jobs) == KeySet(paths)
  {
    JobKeysWithin(jobs, paths);
    PathKeysWithin(jobs, paths);
  }

  lemma JobKeysWithin(jobs: seq<PutJob>, paths: seq<string>)
    requires |jobs| == |paths| && forall i :: 0 <= i < |jobs| ==> jobs[i].path == paths[i]
    ensures JobKeys(jobs) <= KeySet(paths)
  {
    JobKeysExact(jobs);
    forall k | k in JobKeys(jobs) ensures k in KeySet(paths) {
      var i :| 0 <= i < |jobs| && k == S3.Key(jobs[i].path);
      assert paths[i] in paths && k == S3.Key(paths[i]);
    }
  }

  lemma PathKeysWithin(jobs: seq<PutJob>, paths: seq<string>)
    requires |jobs| == |paths| && forall i :: 0 <= i < |jobs| ==> jobs[i].path == paths[i]
    ensures KeySet(paths) <= JobKeys(jobs)
  {
    JobKeysHas(jobs);
    forall k | k in KeySet(paths) ensures k in JobKeys(jobs) {
      var p :| p in paths && k == S3.Key(p);
      var i :| 0 <= i < |paths| && paths[i] == p;
      assert S3.Key(jobs[i].path) == k;
    }
  }

  /** Every job's key is among the keys. */
  lemma {:induction false} JobKeysHas(jobs: seq<PutJob>)
    ensures forall i :: 0 <= i < |jobs| ==> S3.Key(jobs[i].path) in JobKeys(jobs)
    decreases |jobs|
  {
    if jobs != [] {
      var init := jobs[..|jobs| - 1];
      JobKeysHas(init);
      forall i | 0 <= i < |init| ensures S3.Key(jobs[i].path) in JobKeys(jobs) {
        assert init[i] == jobs[i];
      }
    }
  }

  /** Every key is some job's key. */
  lemma {:induction false} JobKeysExact(jobs: seq<PutJob>)
    ensures forall k :: k in JobKeys(jobs) ==> exists i :: 0 <= i < |jobs| && k == S3.Key(jobs[i].path)
    decreases |jobs|
  {
    if jobs != [] {
      var init := jobs[..|jobs| - 1];
      JobKeysExact(init);
      forall k | k in JobKeys(jobs)
        ensures exists i :: 0 <= i < |jobs| && k == S3.Key(jobs[i].path)
      {
        if k in JobKeys(init) {
          var i :| 0 <= i < |init| && k == S3.Key(init[i].path);
          assert jobs[i] == init[i];
        } else {
          assert k == S3.Key(jobs[|jobs| - 1].path);
        }
      }
    }
  }

  /** PutAllForced read through the paths the jobs were made from. */
  lemma UploadsFrom(objects: map<string, S3.Object>, root: seq<Entry>, jobs: seq<PutJob>, paths: seq<string>,
                    hash: Bytes -> string)
    requires |jobs| == |paths|
    requires forall i :: 0 <= i < |jobs| ==> (jobs[i].path == paths[i] && jobs[i].force &&
      JobContent(root, jobs[i]) == ReadFileAt(root, PathOf(Site.PubSiteDir + paths[i])) && JobContent(root, jobs[i]).Some?)
    requires forall i, j :: 0 <= i < j < |jobs| ==> S3.Key(jobs[i].path) != S3.Key(jobs[j].path)
    requires JobKeys(jobs) == KeySet(paths)
    ensures var st := PutAll(objects, root, jobs, hash, S3.NoFaults);
      st.logged == [] && st.objects.Keys == objects.Keys + KeySet(paths) &&
      forall i :: 0 <= i < |paths| ==> (S3.Key(paths[i]) in st.objects &&
        Some(st.objects[S3.Key(paths[i])].body) == ReadFileAt(root, PathOf(Site.PubSiteDir + paths[i])))
  {
    PutAllForced(objects, root, jobs, hash);
    var st := PutAll(objects, root, jobs, hash, S3.NoFaults);
    forall i | 0 <= i < |paths|
      ensures S3.Key(paths[i]) in st.objects
      ensures Some(st.objects[S3.Key(paths[i])].body) == ReadFileAt(root, PathOf(Site.PubSiteDir + paths[i]))
    {
      UploadBody(st.objects, root, jobs[i], paths[i], hash);
    }
  }

  lemma UploadBody(m: map<string, S3.Object>, root: seq<Entry>, job: PutJob, path: string, hash: Bytes -> string)
    requires job.path == path && JobContent(root, job) == ReadFileAt(root, PathOf(Site.PubSiteDir + path))
    requires JobContent(root, job).Some? && HoldsUpload(m, root, job, hash)
    ensures S3.Key(path) in m && Some(m[S3.Key(path)].body) == ReadFileAt(root, PathOf(Site.PubSiteDir + path))
  {
  }

  /**
   * A forced deploy without failures logs nothing, stores every file of
   * public under its key with its bytes, and adds no other key.
   */
  lemma DeployUploads(objects: map<string, S3.Object>, root: seq<Entry>, hash: Bytes -> string)
    requires ValidListing(root)
    ensures var paths := SitePaths(root, "");
      var st := PutAll(objects, root, DeployJobs(root, Site.PubSiteDir, "", true), hash, S3.NoFaults);
      st.logged == [] && st.objects.Keys == objects.Keys + KeySet(paths) &&
      forall i :: 0 <= i < |paths| ==> (S3.Key(paths[i]) in st.objects &&
        Some(st.objects[S3.Key(paths[i])].body) == ReadFileAt(root, PathOf(Site.PubSiteDir + paths[i])))
  {
    var jobs := DeployJobs(root, Site.PubSiteDir, "", true);
    var paths := SitePaths(root, "");
    DeployJobsArePaths(root, true);
    assert |jobs| == |paths|;
    DeployJobsReady(root);
    assert forall i :: 0 <= i < |jobs| ==> jobs[i].path == paths[i];
    DeployKeys(root);
    assert JobKeys(jobs) == KeySet(paths);
    UploadsFrom(objects, root, jobs, paths, hash);
  }

  /**
   * A flush without failures of a listing that fits one page, when every
   * valid path is "/" + its key and every such key is present, leaves exactly
   * the keys of the valid paths and changes none of their objects.
   */
  lemma FlushMirror(m: map<string, S3.Object>, paths: seq<string>, order: seq<string>)
    requires S3.Listing(m, order) && |order| <= S3.PageSize
    requires forall i :: 0 <= i < |paths| ==> "/" + S3.Key(paths[i]) == paths[i]
    requires KeySet(paths) <= m.Keys
    ensures var w := S3.FlushWalk(PathSet(paths), order, S3.NoFaults); var final := m - w.deleted;
      w.err == None && final.Keys == KeySet(paths) && forall k :: k in final ==> final[k] == m[k]
  {
    var valid := PathSet(paths);
    S3.FlushExact(m, valid, order);
    var w := S3.FlushWalk(valid, order, S3.NoFaults);
    var final := m - w.deleted;
    forall k | k in KeySet(paths)
      ensures k in final
    {
      var p :| p in paths && k == S3.Key(p);
      var i :| 0 <= i < |paths| && paths[i] == p;
    }
    forall k | k in final
      ensures k in KeySet(paths)
    {
      var i :| 0 <= i < |paths| && paths[i] == "/" + k;
      assert ("/" + S3.Key(paths[i]))[1..] == S3.Key(paths[i]);
      assert ("/" + k)[1..] == k;
    }
  }

  /**
   * A forced deploy without failures, followed by a flush of a listing that
   * fits one page, leaves the bucket mirroring public: its keys are exactly
   * the keys of GetPaths(""), each holding the bytes of its local file.
   */
  lemma DeployMirrors(objects: map<string, S3.Object>, root: seq<Entry>, hash: Bytes -> string, order: seq<string>)
    requires ValidListing(root)
    requires var st := PutAll(objects, root, DeployJobs(root, Site.PubSiteDir, "", true), hash, S3.NoFaults);
      S3.Listing(st.objects, order) && |order| <= S3.PageSize
    ensures var paths := SitePaths(root, "");
      var st := PutAll(objects, root, DeployJobs(root, Site.PubSiteDir, "", true), hash, S3.NoFaults);
      var w := S3.FlushWalk(PathSet(paths), order, S3.NoFaults);
      var final := st.objects - w.deleted;
      st.logged == [] && w.err == None && final.Keys == KeySet(paths) &&
      forall i :: 0 <= i < |paths| ==>
        Some(final[S3.Key(paths[i])].body) == ReadFileAt(root, PathOf(Site.PubSiteDir + paths[i]))
  {
    var paths := SitePaths(root, "");
    DeployUploads(objects, root, hash);
    forall i | 0 <= i < |paths|
      ensures "/" + S3.Key(paths[i]) == paths[i]
    {
      DeployedKept(root, i);
    }
    var st := PutAll(objects, root, DeployJobs(root, Site.PubSiteDir, "", true), hash, S3.NoFaults);
    MirrorAfterFlush(st.objects, root, paths, order);
  }

  /** A bucket holding every path's bytes, flushed against those paths, holds them and nothing else. */
  lemma MirrorAfterFlush(m: map<string, S3.Object>, root: seq<Entry>, paths: seq<string>, order: seq<string>)
    requires S3.Listing(m, order) && |order| <= S3.PageSize
    requires forall i :: 0 <= i < |paths| ==> "/" + S3.Key(paths[i]) == paths[i]
    requires forall i :: 0 <= i < |paths| ==> (S3.Key(paths[i]) in m &&
      Some(m[S3.Key(paths[i])].body) == ReadFileAt(root, PathOf(Site.PubSiteDir + paths[i])))
    ensures var w := S3.FlushWalk(PathSet(paths), order, S3.NoFaults); var final := m - w.deleted;
      w.err == None && final.Keys == KeySet(paths) &&
      forall i :: 0 <= i < |paths| ==>
        Some(final[S3.Key(paths[i])].body) == ReadFileAt(root, PathOf(Site.PubSiteDir + paths[i]))
  {
    forall k | k in KeySet(paths)
      ensures k in m
    {
      var p :| p in paths && k == S3.Key(p);
      var i :| 0 <= i < |paths| && paths[i] == p;
    }
    FlushMirror(m, paths, order);
  }

  // ---- a second deploy ----------------------------------------------------

  /**
   * Unforced jobs whose remote objects already match their bytes, and whose
   * GetObject calls succeed, change nothing and log nothing.
   */
  lemma {:induction false} PutAllUnchanged(objects: map<string, S3.Object>, root: seq<Entry>, jobs: seq<PutJob>,
                                           hash: Bytes -> string, faults: S3.Faults)
    requires forall i :: 0 <= i < |jobs| ==>
      (!jobs[i].force && JobContent(root, jobs[i]).Some? && S3.Key(jobs[i].path) !in faults.get &&
       S3.ExistsAtPath(objects, jobs[i].path, JobContent(root, jobs[i]).value, hash))
    ensures PutAll(objects, root, jobs, hash, faults) == PutState(objects, [])
    decreases |jobs|
  {
    if jobs != [] {
      var init := jobs[..|jobs| - 1];
      assert forall i :: 0 <= i < |init| ==> init[i] == jobs[i];
      PutAllUnchanged(objects, root, init, hash, faults);
      PutStepUnchanged(PutState(objects, []), root, jobs[|jobs| - 1], hash, faults);
    }
  }

  /** An unforced job whose remote object already matches its bytes changes nothing and logs nothing. */
  lemma PutStepUnchanged(st: PutState, root: seq<Entry>, job: PutJob, hash: Bytes -> string, faults: S3.Faults)
    requires !job.force && JobContent(root, job).Some? && S3.Key(job.path) !in faults.get
    requires S3.ExistsAtPath(st.objects, job.path, JobContent(root, job).value, hash)
    ensures PutStep(st, root, job, hash, faults).objects == st.objects
    ensures PutStep(st, root, job, hash, faults).logged == st.logged
  {
    var c := JobContent(root, job);
    S3.SkipMatching(st.objects, c.value, job.path, hash, faults);
    assert c == Some(c.value);
    SkippedStep(st, job, S3.PutDecision(st.objects, c, job.path, job.force, hash, faults));
  }

  /** A step whose decision is Unchanged leaves the bucket and the log as they were. */
  lemma SkippedStep(st: PutState, job: PutJob, r: S3.PutResult)
    requires r == S3.Unchanged
    ensures S3.PutApply(st.objects, job.path, r) == st.objects
    ensures (st.logged + if S3.PutError(r).Some? then [job.localPrefix + job.path + " " + S3.PutError(r).value] else []) == st.logged
  {
    var none: seq<string> := [];
    assert st.logged + none == st.logged;
  }

  /**
   * An unforced job whose key already holds exactly the object its upload
   * would store leaves the bucket as it is; it logs something only when both
   * its GetObject and its PutObject fail.
   */
  lemma PutStepHeld(st: PutState, root: seq<Entry>, job: PutJob, hash: Bytes -> string, faults: S3.Faults)
    requires !job.force && JobContent(root, job).Some? && '"' !in hash(JobContent(root, job).value)
    requires HoldsUpload(st.objects, root, job, hash)
    ensures PutStep(st, root, job, hash, faults).objects == st.objects
    ensures S3.Key(job.path) !in faults.get * faults.put ==> PutStep(st, root, job, hash, faults).logged == st.logged
  {
    var c := JobContent(root, job);
    assert c == Some(c.value);
    S3.StoredAgain(st.objects, c.value, job.path, hash, faults);
    HeldStep(st, job, S3.PutDecision(st.objects, c, job.path, job.force, hash, faults), faults);
  }

  /** A step whose decision stores nothing new changes the log only when it fails. */
  lemma HeldStep(st: PutState, job: PutJob, r: S3.PutResult, faults: S3.Faults)
    requires S3.PutApply(st.objects, job.path, r) == st.objects
    requires S3.Key(job.path) !in faults.get * faults.put ==> r == S3.Unchanged || r.Uploaded?
    ensures S3.Key(job.path) !in faults.get * faults.put ==>
      (st.logged + if S3.PutError(r).Some? then [job.localPrefix + job.path + " " + S3.PutError(r).value] else []) == st.logged
  {
    var none: seq<string> := [];
    assert st.logged + none == st.logged;
  }

  /**
   * Unforced jobs whose keys already hold exactly the objects their uploads
   * would store leave the bucket as it is, whatever calls fail; they log
   * nothing unless some key's GetObject and PutObject both fail.
   */
  lemma {:induction false} PutAllHeld(objects: map<string, S3.Object>, root: seq<Entry>, jobs: seq<PutJob>,
                                      hash: Bytes -> string, faults: S3.Faults)
    requires forall b :: '"' !in hash(b)
    requires forall i :: 0 <= i < |jobs| ==>
      !jobs[i].force && JobContent(root, jobs[i]).Some? && HoldsUpload(objects, root, jobs[i], hash)
    ensures PutAll(objects, root, jobs, hash, faults).objects == objects
    ensures faults.get !! faults.put ==> PutAll(objects, root, jobs, hash, faults).logged == []
    decreases |jobs|
  {
    if jobs != [] {
      var init := jobs[..|jobs| - 1];
      assert forall i :: 0 <= i < |init| ==> init[i] == jobs[i];
      PutAllHeld(objects, root, init, hash, faults);
      var st := PutAll(objects, root, init, hash, faults);
      PutStepHeld(st, root, jobs[|jobs| - 1], hash, faults);
    }
  }

  /**
   * Deploying again without force, after a forced deploy without failures
   * and before anything changes locally, leaves the bucket as it is whatever
   * calls fail: every key already holds its file's object, so a skipped
   * upload and an upload after a failed GetObject store the same thing. It
   * logs nothing unless a key's GetObject and PutObject both fail, and with
   * every GetObject answering it uploads nothing. The digest is hex text, so
   * it holds no quote.
   */
  lemma DeployTwiceUnchanged(objects: map<string, S3.Object>, root: seq<Entry>, hash: Bytes -> string, faults: S3.Faults)
    requires ValidListing(root)
    requires forall b :: '"' !in hash(b)
    ensures var st := PutAll(objects, root, DeployJobs(root, Site.PubSiteDir, "", true), hash, S3.NoFaults);
      var again := PutAll(st.objects, root, DeployJobs(root, Site.PubSiteDir, "", false), hash, faults);
      again.objects == st.objects &&
      (faults.get !! faults.put ==> again.logged == []) &&
      (faults.get == {} ==> again == PutState(st.objects, []))
  {
    var forced := DeployJobs(root, Site.PubSiteDir, "", true);
    var again := DeployJobs(root, Site.PubSiteDir, "", false);
    var st := PutAll(objects, root, forced, hash, S3.NoFaults);
    DeployJobsArePaths(root, true);
    DeployJobsArePaths(root, false);
    DeployJobsReady(root);
    PutAllForced(objects, root, forced, hash);
    forall i | 0 <= i < |again|
      ensures !again[i].force && JobContent(root, again[i]).Some? && HoldsUpload(st.objects, root, again[i], hash)
    {
      assert JobContent(root, again[i]) == JobContent(root, forced[i]);
      assert HoldsUpload(st.objects, root, forced[i], hash);
    }
    PutAllHeld(st.objects, root, again, hash, faults);
    if faults.get == {} {
      forall i | 0 <= i < |again|
        ensures !again[i].force && JobContent(root, again[i]).Some? && S3.Key(again[i].path) !in faults.get &&
                S3.ExistsAtPath(st.objects, again[i].path, JobContent(root, again[i]).value, hash)
      {
        S3.TrimQuoted(hash(JobContent(root, again[i]).value));
      }
      PutAllUnchanged(st.objects, root, again, hash, faults);
    }
  }
}
