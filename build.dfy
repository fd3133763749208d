/**
 * build/build.go: the older copy of the image record and its ordering,
 * file naming in its getInfo, the list of collections, the navigation
 * links, and where buildCollection and copyImage put their output.
 */
module Build {
  import opened GoStrings
  import opened FileTree
  import Asset
  import BuildInfo
  import Site

  const PubSiteDir := "site"

  /** The record of build.go, without cover, untitled or URL fields. */
  datatype PrintInfo = PrintInfo(
    filename: string, title: string, order: int, description: string,
    date: BuildInfo.Instant, dateString: string, cameraInfo: string, copyright: string)

  const EmptyInfo := PrintInfo("", "", 0, "", BuildInfo.ZeroTime, "", "", "")

  /** build.go's Ordered.Less: the same text as info.go's, on this record. */
  predicate Less(a: PrintInfo, b: PrintInfo) {
    BuildInfo.LessKeys(a.order, a.date, b.order, b.date)
  }

  /** As in info.go: by date whenever b is unordered, false for unordered a against ordered b, else by order. */
  lemma LessCases(a: PrintInfo, b: PrintInfo)
    ensures Less(a, b) <==> if b.order == 0 then a.date < b.date else a.order != 0 && a.order < b.order
    ensures !Less(a, a)
  {
  }

  // ---- naming in getInfo -----------------------------------------------

  /**
   * The title and order getInfo gives a file name: the name without its
   * extension and 0, unless the name starts with `_`, the rest after all
   * leading `_` splits in two at the next `_`, and the first part is a
   * number; then that number and the second part without its extension.
   */
  function Naming(filename: string): (string, int) {
    var title := BuildInfo.StripExtension(filename);
    if !HasPrefix(filename, "_") then (title, 0)
    else
      var parts := SplitN2(TrimLeft(filename, '_'), '_');
      if |parts| != 2 then (title, 0)
      else match Atoi(parts[0])
        case None => (title, 0)
        case Some(n) => (BuildInfo.StripExtension(parts[1]), n)
  }

  /** A name without the `_` prefix keeps its stripped name as title, with order 0. */
  lemma NamingPlain(filename: string)
    requires !HasPrefix(filename, "_")
    ensures Naming(filename) == (BuildInfo.StripExtension(filename), 0)
  {
  }

  /** Underscores, a numeric token, `_` and the rest: the token's value, and the rest stripped. */
  lemma NamingOrdered(filename: string, n: nat, token: string, rest: string)
    requires n >= 1 && filename == Asset.Underscores(n) + token + "_" + rest
    requires token != [] && '_' !in token && Atoi(token).Some?
    ensures Naming(filename) == (BuildInfo.StripExtension(rest), Atoi(token).value)
  {
    var t := token + "_" + rest;
    assert filename == Asset.Underscores(n) + t;
    assert filename[0] == '_';
    assert HasPrefix(filename, "_");
    Asset.TrimUnderscores(n, t);
    assert TrimLeft(filename, '_') == t;
    Asset.SplitToken(token, rest);
    assert SplitN2(TrimLeft(filename, '_'), '_') == [token, rest];
  }

  /** A token that is not a number, or is a number outside int, leaves the default title and order 0. */
  lemma NamingBadToken(filename: string, n: nat, token: string, rest: string)
    requires n >= 1 && filename == Asset.Underscores(n) + token + "_" + rest
    requires token != [] && '_' !in token && Atoi(token).None?
    ensures Naming(filename) == (BuildInfo.StripExtension(filename), 0)
  {
    var t := token + "_" + rest;
    assert filename == Asset.Underscores(n) + t;
    assert filename[0] == '_';
    Asset.TrimUnderscores(n, t);
    Asset.SplitToken(token, rest);
  }

  /** "_3_Sunset.jpg" is titled "Sunset" at position 3. */
  lemma NamingExample(filename: string)
    requires filename == "_3_Sunset.jpg"
    ensures Naming(filename) == ("Sunset", 3)
  {
    Asset.UnderscoreOne();
    assert filename == Asset.Underscores(1) + "3" + "_" + "Sunset.jpg";
    Asset.DigitOrder('3');
    assert Atoi("3") == Some(3);
    NamingOrdered(filename, 1, "3", "Sunset.jpg");
    StripSunset("Sunset.jpg");
  }

  lemma StripSunset(s: string)
    requires s == "Sunset.jpg"
    ensures BuildInfo.StripExtension(s) == "Sunset"
  {
    assert s[6] == '.' && s[7] == 'j' && s[8] == 'p' && s[9] == 'g';
    assert LastIndexOf(s, '.') == 6;
    BuildInfo.StripAtLastDot(s);
  }

  /** getInfo's outcome: the record, or the process ends (log.Fatal, or a panic on an index). */
  datatype Outcome = Fatal | Panic | Info(info: PrintInfo)

  /** The pieces build.go appends after the f-number: the focal length always, before model and lens. */
  function CameraPieces(t: BuildInfo.Tags): seq<string> {
    (if t.exposure.Some? then [Trim(t.exposure.value, '"') + "s"] else []) +
    (if t.iso.Some? then ["ISO " + t.iso.value] else []) +
    (if t.focal.Some? then [t.focal.value + "mm"] else []) +
    (if t.model.Some? then [Trim(t.model.value, '"')] else []) +
    (if t.lens.Some? then [Trim(t.lens.value, '"')] else [])
  }

  /**
   * build.go's getInfo on the bytes of path/filename: a file that cannot be
   * opened gives the empty record (not even the file name is set); bytes
   * without EXIF end the process.
   */
  function GetInfo(filename: string, data: Option<Bytes>, decode: Bytes -> Option<BuildInfo.Tags>,
                   env: BuildInfo.Env): Outcome {
    if data.None? then Info(EmptyInfo)
    else match decode(data.value)
      case None => Fatal
      case Some(t) =>
        var fp := if t.fNumber.Some? then BuildInfo.FNumberPiece(t.fNumber.value, env) else Some("");
        if fp.None? then Panic
        else
          var (title, order) := Naming(filename);
          var date := if t.dateTime.Some? && t.dateTime.value != "" then env.parseDate(t.dateTime.value) else None;
          Info(PrintInfo(filename, title, order,
            if t.description.Some? && t.description.value != "" then Trim(t.description.value, '"') else "",
            if date.Some? then date.value else BuildInfo.ZeroTime,
            if date.Some? then env.formatDay(date.value) else "",
            BuildInfo.Summary(fp.value, CameraPieces(t)),
            if t.copyright.Some? && t.copyright.value != "" then Trim(t.copyright.value, '"') else env.defaultCopyright))
  }

  /** A readable, decodable file carries its name and the title and order of Naming. */
  lemma GetInfoNaming(filename: string, data: Option<Bytes>, decode: Bytes -> Option<BuildInfo.Tags>, env: BuildInfo.Env)
    ensures data.None? ==> GetInfo(filename, data, decode, env) == Info(EmptyInfo)
    ensures data.Some? && decode(data.value).None? ==> GetInfo(filename, data, decode, env) == Fatal
    ensures GetInfo(filename, data, decode, env).Info? && data.Some? ==>
      var info := GetInfo(filename, data, decode, env).info;
      info.filename == filename && (info.title, info.order) == Naming(filename)
  {
  }

  // ---- collections and navigation -------------------------------------

  /** getCollections: the names of the directories in the source listing, in order. */
  method GetCollections(disk: LocalDisk, source: string) returns (colls: seq<string>)
    ensures colls == Site.DirNames(disk.ReadDir(source))
  {
    var files := disk.ReadDir(source);
    colls := [];
    var i := 0;
    while i < |files|
      invariant 0 <= i <= |files|
      invariant colls == Site.DirNames(files[..i])
    {
      DirNamesStep(files, i);
      if files[i].Dir? {
        colls := colls + [files[i].name];
      }
      i := i + 1;
    }
    assert files[..i] == files;
  }

  lemma DirNamesStep(files: seq<Entry>, i: int)
    requires 0 <= i < |files|
    ensures Site.DirNames(files[..i + 1]) == Site.DirNames(files[..i]) + if files[i].Dir? then [files[i].name] else []
  {
    assert files[..i + 1][..i] == files[..i];
  }

  /** The navigation entry for a collection: the root links to the home page. */
  function NavFor(name: string, root: string): BuildInfo.NavInfo {
    BuildInfo.NavInfo(name, if name == root then "/index.html" else "/" + name + "/index.html")
  }

  /** Build's navs loop: one entry per collection, in the same order. */
  method BuildNavs(collections: seq<string>, root: string) returns (navs: array<BuildInfo.NavInfo>)
    ensures fresh(navs) && navs.Length == |collections|
    ensures forall i :: 0 <= i < |collections| ==> navs[i] == NavFor(collections[i], root)
  {
    navs := new BuildInfo.NavInfo[|collections|](_ => BuildInfo.NavInfo("", ""));
    var i := 0;
    while i < |collections|
      invariant 0 <= i <= |collections|
      invariant forall j :: 0 <= j < i ==> navs[j] == NavFor(collections[j], root)
    {
      navs[i] := BuildInfo.NavInfo(collections[i], "");
      if collections[i] == root {
        navs[i] := navs[i].(link := "/index.html");
      } else {
        navs[i] := navs[i].(link := "/" + collections[i] + "/index.html");
      }
      i := i + 1;
    }
  }

  /** Different collections get different links, and each entry carries its collection's name. */
  lemma NavLinksDistinct(a: string, b: string, root: string)
    ensures NavFor(a, root).name == a
    ensures NavFor(a, root).link == NavFor(b, root).link ==> a == b
  {
    var la := NavFor(a, root).link;
    var lb := NavFor(b, root).link;
    if a != root && b != root && la == lb {
      assert |a| == |b|;
      assert a == la[1..1 + |a|];
      assert b == lb[1..1 + |b|];
    }
    if (a == root) != (b == root) {
      assert |la| != |lb|;
    }
  }

  // ---- what buildCollection reads and writes -------------------------

  function IsFile(e: Entry): bool { e.File? }

  function FilesOnly(): Entry -> bool { e => IsFile(e) }

  /**
   * The records of buildCollection's loop: one per plain file of the
   * listing, in order, subdirectories skipped; None when a getInfo ends the
   * process. getInfo reads each file at `dirP` in the tree `root`.
   */
  function CollectInfos(images: seq<Entry>, root: seq<Entry>, dirP: seq<string>,
                        decode: Bytes -> Option<BuildInfo.Tags>, env: BuildInfo.Env): Option<seq<PrintInfo>>
    decreases |images|
  {
    if images == [] then Some([])
    else
      var init := CollectInfos(images[..|images| - 1], root, dirP, decode, env);
      var e := images[|images| - 1];
      if init.None? then None
      else if e.Dir? then init
      else match GetInfo(e.name, ReadFileAt(root, dirP + [e.name]), decode, env)
        case Info(info) => Some(init.value + [info])
        case _ => None
  }

  /** Every record belongs to a plain file, in listing order: the i-th record is the i-th file's. */
  lemma {:induction false} CollectInfosFiles(images: seq<Entry>, root: seq<Entry>, dirP: seq<string>,
                                             decode: Bytes -> Option<BuildInfo.Tags>, env: BuildInfo.Env)
    requires CollectInfos(images, root, dirP, decode, env).Some?
    ensures var infos := CollectInfos(images, root, dirP, decode, env).value; var files := Filter(images, FilesOnly());
      |infos| == |files| &&
      forall i :: 0 <= i < |files| ==>
        GetInfo(files[i].name, ReadFileAt(root, dirP + [files[i].name]), decode, env) == Info(infos[i])
    decreases |images|
  {
    if images != [] {
      var init := images[..|images| - 1];
      var e := images[|images| - 1];
      Snoc(images);
      CollectInfosFiles(init, root, dirP, decode, env);
      FilterSnoc(init, e, FilesOnly());
    }
  }

  /** buildCollection's loop over the listing of source/coll. */
  method CollectImages(disk: LocalDisk, dir: string, decode: Bytes -> Option<BuildInfo.Tags>, env: BuildInfo.Env)
    returns (imageInfo: Option<seq<PrintInfo>>)
    requires disk.Valid()
    ensures imageInfo == CollectInfos(disk.ReadDir(dir), disk.root, PathOf(dir), decode, env)
  {
    var images := disk.ReadDir(dir);
    var infos: seq<PrintInfo> := [];
    var i := 0;
    while i < |images|
      invariant 0 <= i <= |images|
      invariant CollectInfos(images[..i], disk.root, PathOf(dir), decode, env) == Some(infos)
    {
      CollectStep(images, i, disk.root, PathOf(dir), decode, env);
      if images[i].Dir? {
        i := i + 1;
        continue;
      }
      PathChild(dir, images[i].name);
      var info := GetInfo(images[i].name, disk.ReadFile(dir + "/" + images[i].name), decode, env);
      if !info.Info? {
        RestNone(images, i + 1, disk.root, PathOf(dir), decode, env);
        return None;
      }
      infos := infos + [info.info];
      i := i + 1;
    }
    assert images[..i] == images;
    return Some(infos);
  }

  /** One more entry of the listing: a directory adds nothing, a file adds its record or ends the process. */
  lemma CollectStep(images: seq<Entry>, i: int, root: seq<Entry>, dirP: seq<string>,
                    decode: Bytes -> Option<BuildInfo.Tags>, env: BuildInfo.Env)
    requires 0 <= i < |images|
    ensures var before := CollectInfos(images[..i], root, dirP, decode, env);
      CollectInfos(images[..i + 1], root, dirP, decode, env) ==
        if before.None? then None
        else if images[i].Dir? then before
        else match GetInfo(images[i].name, ReadFileAt(root, dirP + [images[i].name]), decode, env)
          case Info(info) => Some(before.value + [info])
          case _ => None
  {
    assert images[..i + 1][..i] == images[..i];
  }

  /** Once a getInfo has ended the process, nothing after it is collected. */
  lemma {:induction false} RestNone(images: seq<Entry>, i: int, root: seq<Entry>, dirP: seq<string>,
                                    decode: Bytes -> Option<BuildInfo.Tags>, env: BuildInfo.Env)
    requires 0 <= i <= |images| && CollectInfos(images[..i], root, dirP, decode, env).None?
    ensures CollectInfos(images, root, dirP, decode, env).None?
    decreases |images| - i
  {
    if i < |images| {
      assert images[..i + 1][..i] == images[..i];
      RestNone(images, i + 1, root, dirP, decode, env);
    } else {
      assert images[..i] == images;
    }
  }

  /** The directory a collection's pages go to: the site directory itself for the root collection. */
  function OutDir(coll: string, root: bool): seq<string> {
    if root then [PubSiteDir] else [PubSiteDir, coll]
  }

  /** Where buildCollection writes a detail page. */
  function DetailPath(coll: string, title: string, root: bool): string {
    if root then PubSiteDir + "/" + title + ".html" else PubSiteDir + "/" + coll + "/" + title + ".html"
  }

  /** Where buildCollection writes the gallery page. */
  function GalleryPath(coll: string, root: bool): string {
    if root then PubSiteDir + "/index.html" else PubSiteDir + "/" + coll + "/index.html"
  }

  /** Where copyImage writes an image. */
  function ImagePath(coll: string, filename: string, root: bool): string {
    if root then PubSiteDir + "/images/" + filename else PubSiteDir + "/" + coll + "/images/" + filename
  }

  /** The collection's output directory as a path string. */
  lemma OutDirPath(coll: string, root: bool)
    requires ValidName(coll)
    ensures PathOf(if root then PubSiteDir else PubSiteDir + "/" + coll) == OutDir(coll, root)
  {
    PathOfName(PubSiteDir);
    PathChild(PubSiteDir, coll);
  }

  /**
   * Detail pages and the gallery go to the same directory, the site
   * directory for the root collection and site/coll otherwise, and images to
   * its images subdirectory.
   */
  lemma OutputPaths(coll: string, title: string, filename: string, root: bool)
    requires ValidName(coll) && ValidName(title + ".html") && ValidName(filename)
    ensures PathOf(DetailPath(coll, title, root)) == OutDir(coll, root) + [title + ".html"]
    ensures PathOf(GalleryPath(coll, root)) == OutDir(coll, root) + ["index.html"]
    ensures PathOf(ImagePath(coll, filename, root)) == OutDir(coll, root) + ["images", filename]
  {
    var out := if root then PubSiteDir else PubSiteDir + "/" + coll;
    OutDirPath(coll, root);
    DetailUnder(out, title, DetailPath(coll, title, root));
    GalleryUnder(out, GalleryPath(coll, root));
    ImageUnder(out, filename, ImagePath(coll, filename, root));
  }

  lemma DetailUnder(out: string, title: string, path: string)
    requires ValidName(title + ".html") && path == out + "/" + title + ".html"
    ensures PathOf(path) == PathOf(out) + [title + ".html"]
  {
    ConcatAssoc(out + "/", title, ".html");
    PathChild(out, title + ".html");
  }

  lemma GalleryUnder(out: string, path: string)
    requires path == out + "/index.html"
    ensures PathOf(path) == PathOf(out) + ["index.html"]
  {
    assert path == out + "/" + "index.html";
    PathChild(out, "index.html");
  }

  lemma ImageUnder(out: string, filename: string, path: string)
    requires ValidName(filename) && path == out + "/images/" + filename
    ensures PathOf(path) == PathOf(out) + ["images", filename]
  {
    assert path == (out + "/" + "images") + "/" + filename;
    PathChild(out, "images");
    PathChild(out + "/" + "images", filename);
  }
}
