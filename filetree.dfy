/**
 * The local file system the generator reads and writes, as a tree of named
 * entries. Paths are the program's '/'-separated strings; empty components
 * are ignored, so "public//css" and "public/css/" name the same directory and
 * every path is taken relative to one root.
 */
module FileTree {
  import opened GoStrings

  type Bytes = seq<bv8>

  datatype Entry = File(name: string, data: Bytes) | Dir(name: string, children: seq<Entry>)

  /** A single path component. */
  predicate ValidName(n: string) { n != "" && '/' !in n }

  // ---- path syntax -----------------------------------------------------

  function NonEmpty(parts: seq<string>): (r: seq<string>)
    ensures forall i :: 0 <= i < |r| ==> r[i] != ""
    decreases |parts|
  {
    if parts == [] then []
    else (if parts[0] == "" then [] else [parts[0]]) + NonEmpty(parts[1..])
  }

  lemma {:induction false} NonEmptyConcat(a: seq<string>, b: seq<string>)
    ensures NonEmpty(a + b) == NonEmpty(a) + NonEmpty(b)
    decreases |a|
  {
    if a != [] {
      assert (a + b)[1..] == a[1..] + b;
      NonEmptyConcat(a[1..], b);
    } else {
      assert a + b == b;
    }
  }

  /** The components of a path string. */
  function PathOf(path: string): (p: seq<string>)
    ensures forall i :: 0 <= i < |p| ==> ValidName(p[i])
  {
    var parts := Split(path, '/');
    var r := NonEmpty(parts);
    assert forall i :: 0 <= i < |r| ==> '/' !in r[i] by {
      NonEmptyKeeps(parts, '/');
    }
    r
  }

  lemma {:induction false} NonEmptyKeeps(parts: seq<string>, c: char)
    requires forall i :: 0 <= i < |parts| ==> c !in parts[i]
    ensures forall i :: 0 <= i < |NonEmpty(parts)| ==> c !in NonEmpty(parts)[i]
    decreases |parts|
  {
    if parts != [] {
      NonEmptyKeeps(parts[1..], c);
    }
  }

  /** Joining two paths with a separator concatenates their components. */
  lemma PathJoin(a: string, b: string)
    ensures PathOf(a + "/" + b) == PathOf(a) + PathOf(b)
  {
    SplitConcat(a, '/', b);
    assert a + "/" + b == a + ['/'] + b;
    NonEmptyConcat(Split(a, '/'), Split(b, '/'));
  }

  /** The empty path names the root. */
  lemma PathOfEmpty()
    ensures PathOf("") == []
  {
    assert Split("", '/') == [""];
  }

  /** A leading slash adds no component. */
  lemma RootedPath(s: string)
    ensures PathOf("/" + s) == PathOf(s)
  {
    PathJoin("", s);
    assert "" + "/" + s == "/" + s;
    PathOfEmpty();
  }

  /** A single valid name is a one-component path. */
  lemma PathOfName(n: string)
    requires ValidName(n)
    ensures PathOf(n) == [n]
  {
    assert Split(n, '/') == [n];
    assert NonEmpty([n]) == [n] + NonEmpty([]);
  }

  /** Appending a valid name to a path adds one component. */
  lemma PathChild(a: string, n: string)
    requires ValidName(n)
    ensures PathOf(a + "/" + n) == PathOf(a) + [n]
  {
    PathJoin(a, n);
    PathOfName(n);
  }

  // ---- listings --------------------------------------------------------

  /** Position of the entry called `n` in a listing, or -1. */
  function Find(l: seq<Entry>, n: string): (k: int)
    ensures -1 <= k < |l|
    ensures k >= 0 ==> l[k].name == n && forall j :: 0 <= j < k ==> l[j].name != n
    ensures k == -1 <==> forall j :: 0 <= j < |l| ==> l[j].name != n
    decreases |l|
  {
    if l == [] then -1
    else if l[0].name == n then 0
    else
      var k := Find(l[1..], n);
      if k < 0 then -1 else k + 1
  }

  function Names(l: seq<Entry>): (r: seq<string>)
    ensures |r| == |l| && forall i :: 0 <= i < |l| ==> r[i] == l[i].name
  {
    seq(|l|, i requires 0 <= i < |l| => l[i].name)
  }

  predicate UniqueNames(l: seq<Entry>) {
    forall i, j :: 0 <= i < j < |l| ==> l[i].name != l[j].name
  }

  /** Every directory of the tree has valid, pairwise distinct entry names. */
  predicate ValidListing(l: seq<Entry>)
    decreases l
  {
    UniqueNames(l) &&
    forall i :: 0 <= i < |l| ==> ValidName(l[i].name) && (l[i].Dir? ==> ValidListing(l[i].children))
  }

  /** In a listing with distinct names, the entry at `k` is the one found by its name. */
  lemma FindUnique(l: seq<Entry>, k: int)
    requires UniqueNames(l) && 0 <= k < |l|
    ensures Find(l, l[k].name) == k
  {
  }

  /** Remove the entry at position `k`. */
  function RemoveAt(l: seq<Entry>, k: int): (r: seq<Entry>)
    requires 0 <= k < |l|
    ensures |r| == |l| - 1
    ensures forall e :: e in r ==> e in l
  {
    l[..k] + l[k + 1..]
  }

  /** Replacing an entry by one of the same name leaves every lookup by name as it was. */
  lemma FindReplace(l: seq<Entry>, k: int, e: Entry, n: string)
    requires 0 <= k < |l| && e.name == l[k].name
    ensures Find(l[k := e], n) == Find(l, n)
  {
    var r := l[k := e];
    assert forall j :: 0 <= j < |l| ==> (r[j].name == n <==> l[j].name == n);
  }

  /** Appending an entry leaves lookups of the other names as they were. */
  lemma FindAppend(l: seq<Entry>, e: Entry, n: string)
    ensures Find(l + [e], n) == if Find(l, n) >= 0 || n != e.name then Find(l, n) else |l|
  {
    var r := l + [e];
    assert forall j :: 0 <= j < |l| ==> r[j] == l[j];
    assert r[|l|] == e;
    var m := Find(r, n);
    if Find(l, n) < 0 && n == e.name {
      assert forall j :: 0 <= j < |l| ==> r[j].name != n;
    }
  }

  /** A name is found in a concatenation in its first part, else in its second. */
  lemma FindConcat(a: seq<Entry>, b: seq<Entry>, n: string)
    ensures Find(a + b, n) == if Find(a, n) >= 0 then Find(a, n) else if Find(b, n) >= 0 then |a| + Find(b, n) else -1
  {
    var r := a + b;
    assert forall j :: 0 <= j < |a| ==> r[j] == a[j];
    assert forall j :: 0 <= j < |b| ==> r[|a| + j] == b[j];
    if Find(a, n) < 0 && Find(b, n) >= 0 {
      var m := Find(r, n);
      assert r[|a| + Find(b, n)].name == n;
      assert m >= |a| ==> b[m - |a|].name == n;
    }
    if Find(a, n) < 0 && Find(b, n) < 0 {
      assert forall j :: 0 <= j < |r| ==> r[j].name != n by {
        forall j | 0 <= j < |r| ensures r[j].name != n {
          if j >= |a| { assert r[j] == b[j - |a|]; }
        }
      }
    }
  }

  /** Set entry `e` in a listing: replace the entry of the same name, or append it. */
  function SetEntry(l: seq<Entry>, e: Entry): (r: seq<Entry>)
    ensures Find(l, e.name) >= 0 ==> r == l[Find(l, e.name) := e]
    ensures Find(l, e.name) < 0 ==> r == l + [e]
  {
    var k := Find(l, e.name);
    if k >= 0 then l[k := e] else l + [e]
  }

  /** After setting `e`, its name finds `e`, and every other name finds what it found before. */
  lemma SetEntryFind(l: seq<Entry>, e: Entry, n: string)
    ensures var r := SetEntry(l, e);
      (Find(r, n) >= 0 <==> Find(l, n) >= 0 || n == e.name) &&
      (n == e.name ==> r[Find(r, n)] == e) &&
      (n != e.name ==> Find(r, n) == Find(l, n) && (Find(l, n) >= 0 ==> r[Find(r, n)] == l[Find(l, n)]))
  {
    var k := Find(l, e.name);
    if k >= 0 {
      FindReplace(l, k, e, n);
    } else {
      FindAppend(l, e, n);
    }
  }

  lemma SetEntryValid(l: seq<Entry>, e: Entry)
    requires ValidListing(l) && ValidName(e.name) && (e.Dir? ==> ValidListing(e.children))
    ensures ValidListing(SetEntry(l, e))
  {
    var r := SetEntry(l, e);
    var k := Find(l, e.name);
    if k < 0 {
      assert forall i :: 0 <= i < |l| ==> r[i] == l[i];
    }
  }

  lemma RemoveAtValid(l: seq<Entry>, k: int)
    requires ValidListing(l) && 0 <= k < |l|
    ensures ValidListing(RemoveAt(l, k))
  {
    var r := RemoveAt(l, k);
    forall i | 0 <= i < |r|
      ensures ValidName(r[i].name) && (r[i].Dir? ==> ValidListing(r[i].children))
    {
      RemoveAtIndex(l, k, i);
    }
    forall i, j | 0 <= i < j < |r|
      ensures r[i].name != r[j].name
    {
      RemoveAtIndex(l, k, i);
      RemoveAtIndex(l, k, j);
    }
  }

  /** The entries after the removed one move down by one place. */
  lemma RemoveAtIndex(l: seq<Entry>, k: int, i: int)
    requires 0 <= k < |l| && 0 <= i < |l| - 1
    ensures RemoveAt(l, k)[i] == if i < k then l[i] else l[i + 1]
  {
  }

  // ---- the tree --------------------------------------------------------

  /** The listing of the directory at component path `p`, if `p` is a directory. */
  function ListDir(l: seq<Entry>, p: seq<string>): Option<seq<Entry>>
    decreases p
  {
    if p == [] then Some(l)
    else
      var k := Find(l, p[0]);
      if k >= 0 && l[k].Dir? then ListDir(l[k].children, p[1..]) else None
  }

  /** Replace the listing of the directory at `p` (no change if there is none). */
  function UpdateDir(l: seq<Entry>, p: seq<string>, nl: seq<Entry>): seq<Entry>
    decreases p
  {
    if p == [] then nl
    else
      var k := Find(l, p[0]);
      if k >= 0 && l[k].Dir? then l[k := Dir(p[0], UpdateDir(l[k].children, p[1..], nl))] else l
  }

  /** Updating a path that is not a directory changes nothing. */
  lemma {:induction false} UpdateNone(l: seq<Entry>, p: seq<string>, nl: seq<Entry>)
    requires ListDir(l, p).None?
    ensures UpdateDir(l, p, nl) == l
    decreases p
  {
    var k := Find(l, p[0]);
    if k >= 0 && l[k].Dir? {
      UpdateNone(l[k].children, p[1..], nl);
    }
  }

  /** What was written is what is listed afterwards. */
  lemma {:induction false} ListUpdate(l: seq<Entry>, p: seq<string>, nl: seq<Entry>)
    requires ListDir(l, p).Some?
    ensures ListDir(UpdateDir(l, p, nl), p) == Some(nl)
    decreases p
  {
    if p != [] {
      var k := Find(l, p[0]);
      ListUpdate(l[k].children, p[1..], nl);
      FindReplace(l, k, Dir(p[0], UpdateDir(l[k].children, p[1..], nl)), p[0]);
    }
  }

  /** Writing back the current listing changes nothing. */
  lemma {:induction false} UpdateSame(l: seq<Entry>, p: seq<string>)
    requires ListDir(l, p).Some?
    ensures UpdateDir(l, p, ListDir(l, p).value) == l
    decreases p
  {
    if p != [] {
      var k := Find(l, p[0]);
      UpdateSame(l[k].children, p[1..]);
    }
  }

  /** Directory updates along the same path: the second one wins. */
  lemma {:induction false} UpdateUpdate(l: seq<Entry>, p: seq<string>, a: seq<Entry>, b: seq<Entry>)
    ensures UpdateDir(UpdateDir(l, p, a), p, b) == UpdateDir(l, p, b)
    decreases p
  {
    if p != [] {
      var k := Find(l, p[0]);
      if k >= 0 && l[k].Dir? {
        FindReplace(l, k, Dir(p[0], UpdateDir(l[k].children, p[1..], a)), p[0]);
        UpdateUpdate(l[k].children, p[1..], a, b);
      }
    }
  }

  /** The listing of a subdirectory, seen from its parent. */
  lemma {:induction false} ListChild(l: seq<Entry>, p: seq<string>, n: string)
    requires ListDir(l, p).Some?
    ensures var x := ListDir(l, p).value; var k := Find(x, n);
      ListDir(l, p + [n]) == if k >= 0 && x[k].Dir? then Some(x[k].children) else None
    decreases p
  {
    if p == [] {
      assert (p + [n])[1..] == [];
    } else {
      var k := Find(l, p[0]);
      assert (p + [n])[1..] == p[1..] + [n];
      ListChild(l[k].children, p[1..], n);
    }
  }

  /** Updating a subdirectory is updating its entry in the parent listing. */
  lemma {:induction false} UpdateChild(l: seq<Entry>, p: seq<string>, n: string, nl: seq<Entry>)
    requires ListDir(l, p).Some?
    requires var x := ListDir(l, p).value; Find(x, n) >= 0 && x[Find(x, n)].Dir?
    ensures var x := ListDir(l, p).value;
      UpdateDir(l, p + [n], nl) == UpdateDir(l, p, x[Find(x, n) := Dir(n, nl)])
    decreases p
  {
    if p == [] {
      assert (p + [n])[1..] == [];
    } else {
      var k := Find(l, p[0]);
      assert (p + [n])[1..] == p[1..] + [n];
      UpdateChild(l[k].children, p[1..], n, nl);
    }
  }

  /** Replacing a directory listing by a valid one keeps the tree valid. */
  lemma {:induction false} UpdateValid(l: seq<Entry>, p: seq<string>, nl: seq<Entry>)
    requires ValidListing(l) && ValidListing(nl)
    ensures ValidListing(UpdateDir(l, p, nl))
    decreases p
  {
    if p != [] {
      var k := Find(l, p[0]);
      if k >= 0 && l[k].Dir? {
        UpdateValid(l[k].children, p[1..], nl);
        SetEntryValid(l, Dir(p[0], UpdateDir(l[k].children, p[1..], nl)));
        assert SetEntry(l, Dir(p[0], UpdateDir(l[k].children, p[1..], nl))) == UpdateDir(l, p, nl);
      }
    }
  }

  /** Every directory listing of a valid tree is valid. */
  lemma {:induction false} ListValid(l: seq<Entry>, p: seq<string>)
    requires ValidListing(l) && ListDir(l, p).Some?
    ensures ValidListing(ListDir(l, p).value)
    decreases p
  {
    if p != [] {
      ListValid(l[Find(l, p[0])].children, p[1..]);
    }
  }

  // ---- filtering a listing ---------------------------------------------

  /** The entries of `l` that `keep` accepts, in listing order. */
  function Filter(l: seq<Entry>, keep: Entry -> bool): (r: seq<Entry>)
    ensures forall e :: e in r <==> e in l && keep(e)
    ensures |r| <= |l|
    decreases |l|
  {
    if l == [] then []
    else
      var init := l[..|l| - 1];
      var e := l[|l| - 1];
      Snoc(l);
      Filter(init, keep) + (if keep(e) then [e] else [])
  }

  lemma FilterSnoc(l: seq<Entry>, e: Entry, keep: Entry -> bool)
    ensures Filter(l + [e], keep) == Filter(l, keep) + (if keep(e) then [e] else [])
  {
    assert (l + [e])[..|l|] == l;
  }

  /** Filtering keeps distinct names and valid subtrees. */
  lemma {:induction false} FilterValid(l: seq<Entry>, keep: Entry -> bool)
    requires ValidListing(l)
    ensures ValidListing(Filter(l, keep))
    decreases |l|
  {
    if l != [] {
      var init := l[..|l| - 1];
      var e := l[|l| - 1];
      ValidInit(l);
      FilterValid(init, keep);
      var r := Filter(init, keep);
      if keep(e) {
        forall x | x in r ensures x.name != e.name {
          var j :| 0 <= j < |init| && init[j] == x;
        }
        ValidSnoc(r, e);
      }
    }
  }

  /** A valid listing without its last entry, and that entry. */
  lemma ValidInit(l: seq<Entry>)
    requires ValidListing(l) && l != []
    ensures var init, e := l[..|l| - 1], l[|l| - 1];
      ValidListing(init) && ValidName(e.name) && (e.Dir? ==> ValidListing(e.children)) &&
      forall j :: 0 <= j < |init| ==> init[j].name != e.name
  {
    var init := l[..|l| - 1];
    assert forall j :: 0 <= j < |init| ==> init[j] == l[j];
  }

  /** A valid entry whose name is new keeps a listing valid. */
  lemma ValidSnoc(r: seq<Entry>, e: Entry)
    requires ValidListing(r) && ValidName(e.name) && (e.Dir? ==> ValidListing(e.children))
    requires forall x :: x in r ==> x.name != e.name
    ensures ValidListing(r + [e])
  {
    var s := r + [e];
    assert forall j :: 0 <= j < |r| ==> s[j] == r[j];
    assert s[|r|] == e;
  }

  /** Filtering a filtered listing changes nothing. */
  lemma {:induction false} FilterIdempotent(l: seq<Entry>, keep: Entry -> bool)
    ensures Filter(Filter(l, keep), keep) == Filter(l, keep)
    decreases |l|
  {
    if l != [] {
      var init := l[..|l| - 1];
      var e := l[|l| - 1];
      var k := Filter(init, keep);
      assert Filter(l, keep) == k + (if keep(e) then [e] else []);
      FilterIdempotent(init, keep);
      if keep(e) {
        FilterSnoc(k, e, keep);
      } else {
        assert k + [] == k;
      }
    }
  }

  /** How a loop that filters `l` in place advances by one entry. */
  lemma FilterProgress(l: seq<Entry>, i: int, keep: Entry -> bool)
    requires 0 <= i < |l|
    ensures var done := Filter(l[..i], keep); var e := l[i];
      done + l[i..] == done + [e] + l[i + 1..] &&
      Filter(l[..i + 1], keep) + l[i + 1..] == done + (if keep(e) then [e] else []) + l[i + 1..]
  {
    assert l[..i + 1] == l[..i] + [l[i]];
    FilterSnoc(l[..i], l[i], keep);
    assert l[i..] == [l[i]] + l[i + 1..];
  }

  lemma FilterBounds(l: seq<Entry>, keep: Entry -> bool)
    ensures Filter(l[..0], keep) + l[0..] == l
    ensures Filter(l[..|l|], keep) + l[|l|..] == Filter(l, keep)
  {
    assert l[..0] == [] && l[0..] == l;
    assert l[..|l|] == l && l[|l|..] == [];
  }

  /** The tree after filtering the directory at `p` (no change when there is none). */
  function FilterAt(root: seq<Entry>, p: seq<string>, keep: Entry -> bool): seq<Entry> {
    match ListDir(root, p)
      case None => root
      case Some(x) => UpdateDir(root, p, Filter(x, keep))
  }

  /** A second filter of the same directory removes nothing. */
  lemma FilterAtIdempotent(root: seq<Entry>, p: seq<string>, keep: Entry -> bool)
    ensures FilterAt(FilterAt(root, p, keep), p, keep) == FilterAt(root, p, keep)
  {
    if ListDir(root, p).Some? {
      var x := ListDir(root, p).value;
      ListUpdate(root, p, Filter(x, keep));
      FilterIdempotent(x, keep);
      UpdateUpdate(root, p, Filter(x, keep), Filter(x, keep));
    }
  }

  /** The listing written at `p` is a listing of the valid tree. */
  lemma WrittenValid(root0: seq<Entry>, p: seq<string>, cur: seq<Entry>)
    requires ListDir(root0, p).Some?
    requires ValidListing(UpdateDir(root0, p, cur))
    ensures ValidListing(cur)
  {
    ListUpdate(root0, p, cur);
    ListValid(UpdateDir(root0, p, cur), p);
  }

  lemma MiddleName(done: seq<Entry>, e: Entry, rest: seq<Entry>)
    requires ValidListing(done + [e] + rest)
    ensures UniqueNames(done + [e] + rest) && ValidName(e.name)
    ensures e.Dir? ==> ValidListing(e.children)
  {
    assert (done + [e] + rest)[|done|] == e;
  }

  /** Removing the entry `e` of the directory at `p`, which holds `done + [e] + rest`. */
  lemma RemoveStep(root0: seq<Entry>, p: seq<string>, done: seq<Entry>, e: Entry, rest: seq<Entry>)
    requires ListDir(root0, p).Some?
    requires UniqueNames(done + [e] + rest)
    ensures RemovePath(UpdateDir(root0, p, done + [e] + rest), p + [e.name]) == UpdateDir(root0, p, done + rest)
  {
    var cur := done + [e] + rest;
    ListUpdate(root0, p, cur);
    assert cur[|done|] == e;
    FindUnique(cur, |done|);
    var q := p + [e.name];
    assert q[..|q| - 1] == p && q[|q| - 1] == e.name;
    Parts(done, e, rest);
    UpdateUpdate(root0, p, cur, done + rest);
  }

  // ---- file-level operations -------------------------------------------

  /** The entry a component path names, if any. */
  function Lookup(l: seq<Entry>, p: seq<string>): Option<Entry> {
    if p == [] then None
    else match ListDir(l, p[..|p| - 1])
      case None => None
      case Some(x) =>
        var k := Find(x, p[|p| - 1]);
        if k >= 0 then Some(x[k]) else None
  }

  /** ioutil.ReadFile on a component path. */
  function ReadFileAt(l: seq<Entry>, p: seq<string>): Option<Bytes> {
    match Lookup(l, p)
      case Some(File(_, d)) => Some(d)
      case _ => None
  }

  /** The directory holding `p` lists a file named by p's last component, with content `d`. */
  predicate FileAt(l: seq<Entry>, p: seq<string>, d: Bytes) {
    p != [] && ListDir(l, p[..|p| - 1]).Some? && File(p[|p| - 1], d) in ListDir(l, p[..|p| - 1]).value
  }

  /** No directory holds `p`, or the one that does lists no file by p's last component. */
  predicate NoFileAt(l: seq<Entry>, p: seq<string>) {
    p == [] || ListDir(l, p[..|p| - 1]).None? ||
    forall e :: e in ListDir(l, p[..|p| - 1]).value ==> !(e.File? && e.name == p[|p| - 1])
  }

  /** What ReadFileAt reads is the file listed at the path; in a valid tree, nothing read means no such file. */
  lemma ReadFileFound(l: seq<Entry>, p: seq<string>)
    ensures ReadFileAt(l, p).Some? ==> FileAt(l, p, ReadFileAt(l, p).value)
    ensures ValidListing(l) && ReadFileAt(l, p).None? ==> NoFileAt(l, p)
  {
    if p != [] && ListDir(l, p[..|p| - 1]).Some? {
      var x := ListDir(l, p[..|p| - 1]).value;
      var n := p[|p| - 1];
      var k := Find(x, n);
      if k >= 0 && x[k].File? {
        assert x[k] == File(n, x[k].data);
      } else if ValidListing(l) {
        ListValid(l, p[..|p| - 1]);
        forall e | e in x
          ensures !(e.File? && e.name == n)
        {
          var j :| 0 <= j < |x| && x[j] == e;
          if e.name == n {
            FindUnique(x, j);
          }
        }
      }
    }
  }

  /** os.RemoveAll on a component path: the entry and everything under it go. */
  function RemovePath(l: seq<Entry>, p: seq<string>): seq<Entry> {
    if p == [] then l
    else match ListDir(l, p[..|p| - 1])
      case None => l
      case Some(x) =>
        var k := Find(x, p[|p| - 1]);
        if k >= 0 then UpdateDir(l, p[..|p| - 1], RemoveAt(x, k)) else l
  }

  /** The error os.Mkdir reports for a component path, if any. */
  function MkdirError(l: seq<Entry>, p: seq<string>): Option<string> {
    if p == [] then Some(ErrExist)
    else match ListDir(l, p[..|p| - 1])
      case None => Some(ErrNotExist)
      case Some(x) => if Find(x, p[|p| - 1]) >= 0 then Some(ErrExist) else None
  }

  /** The tree after os.Mkdir: a new empty directory, unless an error is reported. */
  function MkdirPath(l: seq<Entry>, p: seq<string>): seq<Entry> {
    if MkdirError(l, p).Some? then l
    else UpdateDir(l, p[..|p| - 1], ListDir(l, p[..|p| - 1]).value + [Dir(p[|p| - 1], [])])
  }

  /** Whether os.Create succeeds: the parent directory exists and the name is not a directory. */
  predicate CanWrite(l: seq<Entry>, p: seq<string>) {
    p != [] && ListDir(l, p[..|p| - 1]).Some? &&
    var x := ListDir(l, p[..|p| - 1]).value;
    var k := Find(x, p[|p| - 1]);
    !(k >= 0 && x[k].Dir?)
  }

  /** The tree after os.Create and a write of `data`, when the file can be created. */
  function WritePath(l: seq<Entry>, p: seq<string>, data: Bytes): seq<Entry> {
    if CanWrite(l, p) then UpdateDir(l, p[..|p| - 1], SetEntry(ListDir(l, p[..|p| - 1]).value, File(p[|p| - 1], data)))
    else l
  }

  /** The bytes of the file called `n` in a listing, if there is one. */
  function FileIn(x: seq<Entry>, n: string): Option<Bytes> {
    var k := Find(x, n);
    if k >= 0 && x[k].File? then Some(x[k].data) else None
  }

  /** `n` names a directory of the listing. */
  predicate DirIn(x: seq<Entry>, n: string) {
    Find(x, n) >= 0 && x[Find(x, n)].Dir?
  }

  /** Updating one top-level directory leaves the listings under every other top-level name alone. */
  lemma ListDirElsewhere(l: seq<Entry>, o: seq<string>, y: seq<Entry>, q: seq<string>)
    requires o != [] && q != [] && q[0] != o[0]
    ensures ListDir(UpdateDir(l, o, y), q) == ListDir(l, q)
  {
    var k := Find(l, o[0]);
    if k >= 0 && l[k].Dir? {
      var e := Dir(o[0], UpdateDir(l[k].children, o[1..], y));
      FindReplace(l, k, e, q[0]);
    }
  }

  /** Reading a file under another top-level name is not affected by an update. */
  lemma ReadElsewhere(l: seq<Entry>, o: seq<string>, y: seq<Entry>, q: seq<string>, n: string)
    requires o != [] && q != [] && q[0] != o[0]
    ensures ReadFileAt(UpdateDir(l, o, y), q + [n]) == ReadFileAt(l, q + [n])
  {
    assert (q + [n])[..|q|] == q;
    ListDirElsewhere(l, o, y, q);
  }

  /** Reading a file of the directory just written reads the new listing. */
  lemma ReadInside(l: seq<Entry>, o: seq<string>, y: seq<Entry>, n: string)
    requires ListDir(l, o).Some?
    ensures ReadFileAt(UpdateDir(l, o, y), o + [n]) == FileIn(y, n)
  {
    assert (o + [n])[..|o|] == o;
    ListUpdate(l, o, y);
  }

  /** Creating a file in the directory just written replaces the listing once more. */
  lemma WriteInside(l: seq<Entry>, o: seq<string>, y: seq<Entry>, n: string, d: Bytes)
    requires ListDir(l, o).Some?
    ensures WritePath(UpdateDir(l, o, y), o + [n], d) ==
      if DirIn(y, n) then UpdateDir(l, o, y) else UpdateDir(l, o, SetEntry(y, File(n, d)))
  {
    assert (o + [n])[..|o|] == o;
    ListUpdate(l, o, y);
    UpdateUpdate(l, o, y, SetEntry(y, File(n, d)));
  }

  /** A file cannot be created in a directory that does not exist. */
  lemma WriteMissing(l: seq<Entry>, o: seq<string>, n: string, d: Bytes)
    requires ListDir(l, o).None?
    ensures WritePath(l, o + [n], d) == l && ReadFileAt(l, o + [n]).None?
  {
    assert (o + [n])[..|o|] == o;
  }

  lemma RemovePathValid(l: seq<Entry>, p: seq<string>)
    requires ValidListing(l)
    ensures ValidListing(RemovePath(l, p))
  {
    if p != [] && ListDir(l, p[..|p| - 1]).Some? {
      var x := ListDir(l, p[..|p| - 1]).value;
      var k := Find(x, p[|p| - 1]);
      if k >= 0 {
        ListValid(l, p[..|p| - 1]);
        RemoveAtValid(x, k);
        UpdateValid(l, p[..|p| - 1], RemoveAt(x, k));
      }
    }
  }

  lemma MkdirPathValid(l: seq<Entry>, p: seq<string>)
    requires ValidListing(l) && forall i :: 0 <= i < |p| ==> ValidName(p[i])
    ensures ValidListing(MkdirPath(l, p))
  {
    if MkdirError(l, p).None? {
      var x := ListDir(l, p[..|p| - 1]).value;
      ListValid(l, p[..|p| - 1]);
      SetEntryValid(x, Dir(p[|p| - 1], []));
      UpdateValid(l, p[..|p| - 1], x + [Dir(p[|p| - 1], [])]);
    }
  }

  lemma WritePathValid(l: seq<Entry>, p: seq<string>, data: Bytes)
    requires ValidListing(l) && forall i :: 0 <= i < |p| ==> ValidName(p[i])
    ensures ValidListing(WritePath(l, p, data))
  {
    if CanWrite(l, p) {
      var x := ListDir(l, p[..|p| - 1]).value;
      ListValid(l, p[..|p| - 1]);
      SetEntryValid(x, File(p[|p| - 1], data));
      UpdateValid(l, p[..|p| - 1], SetEntry(x, File(p[|p| - 1], data)));
    }
  }

  /**
   * The disk an operation runs against: the tree under the working directory.
   * Every operation goes through the same primitives the program calls
   * (ioutil.ReadDir, ioutil.ReadFile, os.Mkdir, os.Remove/os.RemoveAll,
   * os.Create followed by a write).
   */
  class LocalDisk {
    var root: seq<Entry>

    predicate Valid()
      reads this
    {
      ValidListing(root)
    }

    constructor (initial: seq<Entry>)
      requires ValidListing(initial)
      ensures Valid() && root == initial
    {
      root := initial;
    }

    /** ioutil.ReadDir: the entries of a directory; on any error the program sees none. */
    function ReadDir(path: string): (r: seq<Entry>)
      reads this
      ensures ListDir(root, PathOf(path)).Some? ==> r == ListDir(root, PathOf(path)).value
      ensures ListDir(root, PathOf(path)).None? ==> r == []
      ensures Valid() ==> ValidListing(r)
    {
      match ListDir(root, PathOf(path))
        case Some(x) => (if Valid() then ListValid(root, PathOf(path)); x else x)
        case None => []
    }

    /** ioutil.ReadFile */
    function ReadFile(path: string): Option<Bytes>
      reads this
    {
      ReadFileAt(root, PathOf(path))
    }

    /** os.RemoveAll (and os.Remove, which the program only applies to plain files). */
    method RemoveAll(path: string)
      modifies this
      requires Valid()
      ensures Valid()
      ensures root == RemovePath(old(root), PathOf(path))
    {
      RemovePathValid(root, PathOf(path));
      root := RemovePath(root, PathOf(path));
    }

    /** os.Mkdir: fails when the parent is missing or the name is taken. */
    method Mkdir(path: string) returns (err: Option<string>)
      modifies this
      requires Valid()
      ensures Valid()
      ensures err == MkdirError(old(root), PathOf(path))
      ensures root == MkdirPath(old(root), PathOf(path))
    {
      err := MkdirError(root, PathOf(path));
      MkdirPathValid(root, PathOf(path));
      root := MkdirPath(root, PathOf(path));
    }

    /** os.Create then Write: create or truncate a regular file. */
    method WriteFile(path: string, data: Bytes) returns (ok: bool)
      modifies this
      requires Valid()
      ensures Valid()
      ensures ok == CanWrite(old(root), PathOf(path))
      ensures root == WritePath(old(root), PathOf(path), data)
    {
      ok := CanWrite(root, PathOf(path));
      WritePathValid(root, PathOf(path), data);
      root := WritePath(root, PathOf(path), data);
    }
  }

  /** The error texts of os.Mkdir that the program inspects. */
  const ErrExist := "file exists"
  const ErrNotExist := "no such file or directory"
}
