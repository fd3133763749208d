/**
 * deploy/driver/drivers/s3/s3.go: the S3 site driver. The bucket is a map
 * from object key to object. The AWS SDK calls (GetObject, PutObject,
 * ListObjects, DeleteObject) are modelled by their effect on that map, and
 * their failures are given by a `Faults` value. The md5 digest is the
 * parameter `hash`, which yields the lower-case hex text of a body.
 */
module S3 {
  import opened GoStrings
  import opened FileTree

  /** A stored object: its body, the ETag the service reports, and the two headers set on upload. */
  datatype Object = Object(body: Bytes, etag: Option<string>, contentType: string, cacheControl: string)

  /**
   * Which remote calls fail: GetObject for the keys in `get`, uploads to the
   * keys in `put`, the listing, deletes of the keys in `delete`.
   */
  datatype Faults = Faults(get: set<string>, put: set<string>, list: bool, delete: set<string>)

  const NoFaults := Faults({}, {}, false, {})

  const ErrRead := "read failed"
  const ErrPut := "put failed"
  const ErrList := "list failed"
  const ErrDelete := "delete failed"

  /** One ListObjects response holds at most this many keys. */
  const PageSize := 1000

  // ---- keys and headers -----------------------------------------------

  /**
   * The object key a site path is stored under. The program passes paths
   * that begin with "/"; the SDK's cleaning of the request path drops the
   * leading separators.
   */
  function Key(path: string): (k: string)
    ensures k == [] || k[0] != '/'
    ensures "/" + k == path <== |path| > 0 && path[0] == '/' && (|path| == 1 || path[1] != '/')
  {
    TrimLeft(path, '/')
  }

  /** The last '.'-separated segment of a path. */
  function LastSegment(path: string): (ext: string)
    ensures '.' !in ext
  {
    var parts := Split(path, '.');
    parts[|parts| - 1]
  }

  /** The switch in PutFile: content type and cache control by extension. */
  function HeadersFor(ext: string): (h: (string, string))
    ensures h.0 != "" <==> ext == "html" || ext == "css" || ext == "js" || ext == "jpg"
    ensures h.1 != "" <==> ext == "html" || ext == "jpg"
  {
    match ext
      case "html" => ("text/html", "max-age=0")
      case "css" => ("text/css", "")
      case "js" => ("text/javascript", "")
      case "jpg" => ("image/jpeg", "max-age=3600")
      case _ => ("", "")
  }

  function Headers(path: string): (string, string) {
    HeadersFor(LastSegment(path))
  }

  /** The headers depend on the text after the last dot only. */
  lemma HeadersByExtension(base: string, ext: string)
    requires '.' !in ext
    ensures Headers(base + "." + ext) == HeadersFor(ext)
  {
    assert base + "." + ext == base + ['.'] + ext;
    SplitAppend(base, '.', ext);
  }

  /** A site path without a dot has no content type and no cache control. */
  lemma HeadersNoDot(path: string)
    requires '.' !in path && |path| > 0 && path[0] == '/'
    ensures Headers(path) == ("", "")
  {
    assert Split(path, '.') == [path];
  }

  // ---- the ETag comparison -------------------------------------------

  /** The ETag the service reports for a body it stored: its md5 in quotes. */
  function Quoted(h: string): string {
    "\"" + h + "\""
  }

  /**
   * fileExistsAtPath: the remote object's ETag, with surrounding quotes
   * trimmed, equals the hex digest of the local bytes. A missing object or a
   * missing ETag gives false.
   */
  predicate ExistsAtPath(objects: map<string, Object>, path: string, b: Bytes, hash: Bytes -> string) {
    var key := Key(path);
    key in objects && objects[key].etag.Some? && Trim(objects[key].etag.value, '"') == hash(b)
  }

  /** Trimming the quotes off a quoted digest gives the digest back. */
  lemma TrimQuoted(h: string)
    requires '"' !in h
    ensures Trim(Quoted(h), '"') == h
  {
    var s := Quoted(h);
    assert s[1..] == h + "\"";
    if h == [] {
      assert (h + "\"")[1..] == [];
    } else {
      var t := h + "\"";
      assert t[0] == h[0] && h[0] in h;
      assert t[..|t| - 1] == h;
      assert Trim(t, '"') == Trim(h, '"');
      assert h[|h| - 1] in h;
    }
  }

  // ---- PutFile ----------------------------------------------------------

  /** What one PutFile call does. */
  datatype PutResult = ReadFailed | Unchanged | PutFailed | Uploaded(obj: Object)

  /** PutFile's decisions, given the local read (None when ioutil.ReadFile fails). */
  function PutDecision(objects: map<string, Object>, content: Option<Bytes>, path: string, force: bool,
                       hash: Bytes -> string, faults: Faults): PutResult {
    if content.None? then ReadFailed
    else if !force && Key(path) !in faults.get && ExistsAtPath(objects, path, content.value, hash) then Unchanged
    else if Key(path) in faults.put then PutFailed
    else
      var h := Headers(path);
      Uploaded(Object(content.value, Some(Quoted(hash(content.value))), h.0, h.1))
  }

  /** The bucket after a PutFile decision. */
  function PutApply(objects: map<string, Object>, path: string, r: PutResult): map<string, Object> {
    if r.Uploaded? then objects[Key(path) := r.obj] else objects
  }

  /** The error PutFile returns. */
  function PutError(r: PutResult): Option<string> {
    match r
      case ReadFailed => Some(ErrRead)
      case PutFailed => Some(ErrPut)
      case _ => None
  }

  /**
   * A read failure is returned before anything is uploaded; without force
   * the upload is skipped exactly when GetObject succeeds and the remote ETag
   * matches, so a failed GetObject means an upload; with force it is always
   * attempted; an upload stores the bytes under the path's key with
   * the headers for its extension, and every other key is untouched.
   */
  lemma PutDecisionRules(objects: map<string, Object>, content: Option<Bytes>, path: string, force: bool,
                         hash: Bytes -> string, faults: Faults)
    ensures var r := PutDecision(objects, content, path, force, hash, faults);
      (content.None? <==> r == ReadFailed) &&
      (r == Unchanged <==> content.Some? && !force && Key(path) !in faults.get && ExistsAtPath(objects, path, content.value, hash)) &&
      (content.Some? && Key(path) in faults.get && Key(path) !in faults.put ==> r.Uploaded?) &&
      (content.Some? && force && Key(path) !in faults.put ==> r.Uploaded?) &&
      (r.Uploaded? ==> r.obj.body == content.value && (r.obj.contentType, r.obj.cacheControl) == Headers(path)) &&
      (forall k :: k in objects && k != Key(path) ==> k in PutApply(objects, path, r) && PutApply(objects, path, r)[k] == objects[k]) &&
      (PutError(r) == None <==> r == Unchanged || r.Uploaded?)
  {
    var r := PutDecision(objects, content, path, force, hash, faults);
    if content.None? {
      assert r == ReadFailed;
    } else if !force && Key(path) !in faults.get && ExistsAtPath(objects, path, content.value, hash) {
      assert r == Unchanged;
    } else if Key(path) in faults.put {
      assert r == PutFailed;
    } else {
      assert r.Uploaded? && PutApply(objects, path, r) == objects[Key(path) := r.obj];
    }
  }

  /** Without force, a body whose remote ETag matches is skipped once GetObject answers. */
  lemma SkipMatching(objects: map<string, Object>, b: Bytes, path: string, hash: Bytes -> string, faults: Faults)
    requires Key(path) !in faults.get && ExistsAtPath(objects, path, b, hash)
    ensures PutDecision(objects, Some(b), path, false, hash, faults) == Unchanged
  {
  }

  /**
   * Once a body is uploaded, putting the same bytes again without force is
   * skipped; when the GetObject of the second call fails, the same object is
   * stored again or, if that upload fails too, the bucket is left alone.
   */
  lemma PutThenSkip(objects: map<string, Object>, b: Bytes, path: string, force: bool,
                    hash: Bytes -> string, faults: Faults, again: Faults)
    requires '"' !in hash(b)
    requires PutDecision(objects, Some(b), path, force, hash, faults).Uploaded?
    ensures var after := PutApply(objects, path, PutDecision(objects, Some(b), path, force, hash, faults));
      var r := PutDecision(after, Some(b), path, false, hash, again);
      (Key(path) !in again.get ==> r == Unchanged) &&
      PutApply(after, path, r) == after
  {
    var after := PutApply(objects, path, PutDecision(objects, Some(b), path, force, hash, faults));
    StoredAgain(after, b, path, hash, again);
  }

  /** A key that already holds the object an upload of `b` would store. */
  lemma StoredAgain(after: map<string, Object>, b: Bytes, path: string, hash: Bytes -> string, again: Faults)
    requires '"' !in hash(b)
    requires var h := Headers(path);
      Key(path) in after && after[Key(path)] == Object(b, Some(Quoted(hash(b))), h.0, h.1)
    ensures var r := PutDecision(after, Some(b), path, false, hash, again);
      (Key(path) !in again.get ==> r == Unchanged) &&
      (Key(path) !in again.put ==> r == Unchanged || r.Uploaded?) &&
      PutApply(after, path, r) == after
  {
    var k := Key(path);
    var r := PutDecision(after, Some(b), path, false, hash, again);
    if k !in again.get {
      TrimQuoted(hash(b));
      assert ExistsAtPath(after, path, b, hash);
      assert r == Unchanged;
    } else if k in again.put {
      assert r == PutFailed;
    } else {
      var h := Headers(path);
      assert r == Uploaded(Object(b, Some(Quoted(hash(b))), h.0, h.1));
      assert after[k := r.obj] == after;
    }
  }

  // ---- FlushFiles ---------------------------------------------------------

  /** A listed key is stale when "/" + key is not among the valid paths. */
  predicate Stale(key: string, valid: set<string>) {
    "/" + key !in valid
  }

  /** The outcome of FlushFiles' delete loop over a listing: the keys removed and the error that stopped it. */
  datatype Walk = Walk(deleted: set<string>, err: Option<string>)

  /** The delete loop: each stale key is deleted in turn; the first failing delete stops the loop. */
  function DeleteWalk(page: seq<string>, valid: set<string>, failing: set<string>): (w: Walk)
    ensures forall k :: k in w.deleted ==> k in page && Stale(k, valid)
    decreases |page|
  {
    if page == [] then Walk({}, None)
    else
      var w := DeleteWalk(page[..|page| - 1], valid, failing);
      var k := page[|page| - 1];
      if w.err.Some? || !Stale(k, valid) then w
      else if k in failing then Walk(w.deleted, Some(ErrDelete))
      else Walk(w.deleted + {k}, None)
  }

  /** The keys one ListObjects call returns: the first page of the listing. */
  function FirstPage(order: seq<string>): (page: seq<string>)
    ensures |page| <= PageSize && |page| <= |order| && page == order[..|page|]
    ensures |order| <= PageSize ==> page == order
  {
    if |order| <= PageSize then order else order[..PageSize]
  }

  /** FlushFiles as written: a failed listing deletes nothing; otherwise the first page is walked. */
  function FlushWalk(valid: set<string>, order: seq<string>, faults: Faults): Walk {
    if faults.list then Walk({}, Some(ErrList))
    else DeleteWalk(FirstPage(order), valid, faults.delete)
  }

  /** FlushFiles as intended: every page of the listing is walked. */
  function FlushWalkAll(valid: set<string>, order: seq<string>, faults: Faults): Walk {
    if faults.list then Walk({}, Some(ErrList))
    else DeleteWalk(order, valid, faults.delete)
  }

  /** `order` lists the keys of `objects`, each once. */
  ghost predicate Listing(objects: map<string, Object>, order: seq<string>) {
    (forall k :: k in objects <==> k in order) &&
    forall i, j :: 0 <= i < j < |order| ==> order[i] != order[j]
  }

  /** A walk with no failing deletes removes exactly the stale keys it saw. */
  lemma {:induction false} WalkNoFailure(page: seq<string>, valid: set<string>)
    ensures var w := DeleteWalk(page, valid, {});
      w.err == None && forall k :: k in w.deleted <==> k in page && Stale(k, valid)
    decreases |page|
  {
    if page != [] {
      var init := page[..|page| - 1];
      WalkNoFailure(init, valid);
      assert page == init + [page[|page| - 1]];
    }
  }

  /** Keys of valid paths survive any walk. */
  lemma FlushKeepsValid(objects: map<string, Object>, valid: set<string>, order: seq<string>, faults: Faults)
    ensures var w := FlushWalk(valid, order, faults);
      (forall k :: k in objects && !Stale(k, valid) ==> k !in w.deleted) &&
      (faults.list ==> w.deleted == {} && w.err == Some(ErrList))
  {
  }

  /** Up to one page, a flush without failures deletes exactly the stale keys. */
  lemma FlushExact(objects: map<string, Object>, valid: set<string>, order: seq<string>)
    requires Listing(objects, order) && |order| <= PageSize
    ensures var w := FlushWalk(valid, order, NoFaults);
      w.err == None && forall k :: k in objects - w.deleted <==> k in objects && !Stale(k, valid)
  {
    WalkNoFailure(order, valid);
  }

  /** Up to one page, a second flush with the same valid paths deletes nothing. */
  lemma FlushIdempotent(objects: map<string, Object>, valid: set<string>, order: seq<string>, order2: seq<string>)
    requires Listing(objects, order) && |order| <= PageSize
    requires Listing(objects - FlushWalk(valid, order, NoFaults).deleted, order2)
    ensures FlushWalk(valid, order2, NoFaults).deleted == {}
  {
    var after := objects - FlushWalk(valid, order, NoFaults).deleted;
    FlushExact(objects, valid, order);
    if |order2| <= PageSize {
      WalkNoFailure(order2, valid);
    } else {
      WalkNoFailure(order2[..PageSize], valid);
      assert forall k :: k in order2[..PageSize] ==> k in after;
    }
  }

  /**
   * As written, only the first page of the listing is walked: in a bucket
   * listing more than 1000 keys, all stale, the key after the first page is
   * never deleted.
   */
  lemma FlushMissesSecondPage(objects: map<string, Object>, valid: set<string>, order: seq<string>)
    requires Listing(objects, order) && |order| > PageSize
    requires forall i :: 0 <= i < |order| ==> Stale(order[i], valid)
    ensures var w := FlushWalk(valid, order, NoFaults);
      w.err == None && order[PageSize] in objects - w.deleted && Stale(order[PageSize], valid)
  {
    WalkNoFailure(order[..PageSize], valid);
    assert order[PageSize] !in order[..PageSize];
  }

  /** Walking every page, a flush without failures deletes exactly the stale keys, however many there are. */
  lemma FlushAllExact(objects: map<string, Object>, valid: set<string>, order: seq<string>)
    requires Listing(objects, order)
    ensures var w := FlushWalkAll(valid, order, NoFaults);
      w.err == None && forall k :: k in objects - w.deleted <==> k in objects && !Stale(k, valid)
  {
    WalkNoFailure(order, valid);
  }

  /** Walking every page, a second flush with the same valid paths deletes nothing. */
  lemma FlushAllIdempotent(objects: map<string, Object>, valid: set<string>, order: seq<string>, order2: seq<string>)
    requires Listing(objects, order)
    requires Listing(objects - FlushWalkAll(valid, order, NoFaults).deleted, order2)
    ensures FlushWalkAll(valid, order2, NoFaults).deleted == {}
  {
    FlushAllExact(objects, valid, order);
    WalkNoFailure(order2, valid);
  }

  /** A later key cannot change what the walk did once an error stopped it. */
  lemma WalkStopped(page: seq<string>, j: int, valid: set<string>, failing: set<string>)
    requires 0 <= j <= |page| && DeleteWalk(page[..j], valid, failing).err.Some?
    ensures DeleteWalk(page, valid, failing) == DeleteWalk(page[..j], valid, failing)
    decreases |page| - j
  {
    if j < |page| {
      assert page[..j + 1][..j] == page[..j];
      WalkStopped(page, j + 1, valid, failing);
    } else {
      assert page[..j] == page;
    }
  }

  /** The bucket a site is deployed to. */
  class Bucket {
    var objects: map<string, Object>

    constructor (initial: map<string, Object>)
      ensures objects == initial
    {
      objects := initial;
    }

    /** PutFile: upload localPrefix/path under the path's key unless an unforced upload finds it unchanged. */
    method PutFile(disk: LocalDisk, localPrefix: string, path: string, force: bool,
                   hash: Bytes -> string, faults: Faults) returns (err: Option<string>)
      modifies this
      ensures var r := PutDecision(old(objects), disk.ReadFile(localPrefix + "/" + path), path, force, hash, faults);
        objects == PutApply(old(objects), path, r) && err == PutError(r)
    {
      var b := disk.ReadFile(localPrefix + "/" + path);
      ghost var r := PutDecision(objects, b, path, force, hash, faults);
      if b.None? {
        return Some(ErrRead);
      }
      var exists_ := FileExistsAtPath(b.value, path, hash, faults);
      if !force && exists_ {
        assert r == Unchanged;
        return None;
      }
      var h := Headers(path);
      if Key(path) in faults.put {
        assert r == PutFailed;
        return Some(ErrPut);
      }
      assert r == Uploaded(Object(b.value, Some(Quoted(hash(b.value))), h.0, h.1));
      objects := objects[Key(path) := Object(b.value, Some(Quoted(hash(b.value))), h.0, h.1)];
      err := None;
    }

    /** fileExistsAtPath */
    method FileExistsAtPath(b: Bytes, path: string, hash: Bytes -> string, faults: Faults) returns (found: bool)
      ensures found <==> Key(path) !in faults.get && ExistsAtPath(objects, path, b, hash)
    {
      var tag := hash(b);
      var key := Key(path);
      if key in faults.get {
        return false;
      }
      if key !in objects || objects[key].etag.None? {
        return false;
      }
      var etag := Trim(objects[key].etag.value, '"');
      found := tag == etag;
    }

    /** FlushFiles: delete every listed object whose "/"+key is not a valid path. */
    method FlushFiles(validPaths: seq<string>, order: seq<string>, faults: Faults) returns (err: Option<string>)
      modifies this
      ensures var w := FlushWalk((set p | p in validPaths), order, faults);
        objects == old(objects) - w.deleted && err == w.err
    {
      var pathMap := PathMap(validPaths);
      if faults.list {
        return Some(ErrList);
      }
      var page := FirstPage(order);
      err := DeleteStale(page, pathMap, faults);
    }

    /** FlushFiles with the listing followed page by page to its end. */
    method FlushFilesAll(validPaths: seq<string>, order: seq<string>, faults: Faults) returns (err: Option<string>)
      modifies this
      ensures var w := FlushWalkAll((set p | p in validPaths), order, faults);
        objects == old(objects) - w.deleted && err == w.err
    {
      var pathMap := PathMap(validPaths);
      if faults.list {
        return Some(ErrList);
      }
      err := DeleteStale(order, pathMap, faults);
    }

    /** The delete loop over one listing. */
    method DeleteStale(page: seq<string>, pathMap: map<string, bool>, faults: Faults) returns (err: Option<string>)
      modifies this
      ensures var w := DeleteWalk(page, pathMap.Keys, faults.delete);
        objects == old(objects) - w.deleted && err == w.err
    {
      var j := 0;
      while j < |page|
        invariant 0 <= j <= |page|
        invariant DeleteWalk(page[..j], pathMap.Keys, faults.delete).err == None
        invariant objects == old(objects) - DeleteWalk(page[..j], pathMap.Keys, faults.delete).deleted
      {
        var key := page[j];
        assert page[..j + 1][..j] == page[..j];
        if "/" + key !in pathMap {
          if key in faults.delete {
            WalkStopped(page, j + 1, pathMap.Keys, faults.delete);
            return Some(ErrDelete);
          }
          objects := objects - {key};
        }
        j := j + 1;
      }
      assert page[..j] == page;
      err := None;
    }
  }

  /** The set of valid paths FlushFiles builds. */
  method PathMap(validPaths: seq<string>) returns (pathMap: map<string, bool>)
    ensures pathMap.Keys == set p | p in validPaths
    ensures forall p :: p in pathMap ==> pathMap[p]
  {
    pathMap := map[];
    var i := 0;
    while i < |validPaths|
      invariant 0 <= i <= |validPaths|
      invariant pathMap.Keys == set p | p in validPaths[..i]
      invariant forall p :: p in pathMap ==> pathMap[p]
    {
      assert validPaths[..i + 1] == validPaths[..i] + [validPaths[i]];
      pathMap := pathMap[validPaths[i] := true];
      i := i + 1;
    }
    assert validPaths[..i] == validPaths;
  }
}
