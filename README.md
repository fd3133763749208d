# filmstrip: the incremental-sync core in Dafny

filmstrip is a static photo-gallery generator written in Go. It reads a
source tree of collection directories holding images and builds a `public`
site: one detail page per image, one gallery page per collection, responsive
image variants, and scaffolding (CSS, JS). It then deploys that tree to an S3
bucket. After a change it only rewrites what changed and flushes what no
longer belongs, on three levels:

- the generated site on local disk (`FlushInvalid`, `flushInvalid`,
  `FlushDir`, `Flush`);
- the scaffolding copy (hash-skip);
- the bucket (ETag skip on upload, and `FlushFiles` deleting keys with no
  local file).

This project models that core. Each Go file gets its own Dafny module:

| module | Go file |
|---|---|
| `Asset` | `asset/asset.go` |
| `BuildInfo` | `build/info.go` |
| `Build` | `build/build.go`, the older copy of the ordering and info code that the tree still carries |
| `Render` | `build/render.go` |
| `Site` | `site/site.go` |
| `BuildFlush` | `build/flush.go` |
| `Sync` | `asset/sync.go` |
| `Deploy` | `deploy/deploy.go` |
| `S3` | `deploy/driver/drivers/s3/s3.go` |

Two more modules carry what the Go code gets from its standard library:

- `GoStrings` follows Go's `strings`, `strconv.Atoi` and `%d` semantics, with case mapping for ASCII letters only:
  - `Split` on an empty string gives `[""]`;
  - `SplitN(s, sep, 2)`;
  - `TrimLeft` and `Trim` with a one-character cutset;
  - `Atoi` with an optional sign and a 64-bit `int`: a value outside that range is an error, and `AtoiValue` is the int returned beside the error: 0 after a syntax error, and the bound on the side of the sign after a range error, which `strconv.ParseUint` reports as soon as the digits after the sign pass 2^64-1, even when a character that is not a digit follows.
- `FileTree` is the local disk:
  - a directory tree is a datatype of `File(name, data)` and `Dir(name, children)` entries;
  - the class `LocalDisk` holds the root listing in a field and offers `ReadDir`, `ReadFile`, `RemoveAll`, `Mkdir` and `WriteFile` over the program's slash-separated string paths;
  - empty path components are dropped, as the operating system does (`public//a` is `public/a`).

The bucket is the class `S3.Bucket`, whose field is a map from key to object.

Where the program loops and changes the disk or the bucket, the model is a
method with a loop. The methods below are proved against a function on the
old state:

- `Sync.FlushDir`, `Site.FlushInvalid`, `BuildFlush.FlushInvalid`: walk a listing and remove entries;
- `Site.CopyScaffoldDir`: copy scaffold files;
- `Deploy.PutJobs`: upload jobs one after another;
- `S3.Bucket.FlushFiles`: delete stale keys;
- `Deploy.GetPaths`, `Deploy.DeployDirs`: recursive listing walks;
- `Asset.RespImages`: the halving loop;
- `Render.MatchIndex`: the match search;
- `Build.BuildNavs`: fills an array.

Lemmas state what the program promises about those functions:

- idempotence of every flush;
- exactly which entries survive;
- that survival depends only on a file's base name;
- that job paths equal `GetPaths("")`;
- that a forced deploy followed by a flush leaves the bucket mirroring the local site;
- that a second unforced deploy leaves the bucket unchanged, and uploads nothing when every GetObject answers.

Where the documented behaviour and the code differ, the model follows the code:

- `"*Harbor.jpg"` decodes to the name `"*Harbor.jpg"` with its star (documented: `"Harbor.jpg"`), see `Asset.ExampleStarKept`;
- width 500 gives four variants, 500/250/125/62 (documented: three), because the loop tests the width before halving it, see `Asset.Width500`;
- build/flush.go and build/build.go come from different versions: their output root is `site` (`BuildFlush.PubSiteDir`, `Build.PubSiteDir`), while site/site.go and deploy/deploy.go use `public` (`Site.PubSiteDir`).

## Model

| member | source | states |
|---|---|---|
| Asset.FileInfo | asset/asset.go:35-56 | cover iff the filename starts with `*`; untitled iff auto-untitle is on and the decoded name contains `dsc` or `DSC`; the decoded name is the filename itself or strictly shorter |
| Asset.DecodePrefixed | asset/asset.go:37-51 | for `[*]` + one or more `_` + token + `_` + name (at least one `_` without a star), the name is the text after the first separator, the order is the int Atoi returns for the token even when it reports an error, and cover is the star |
| Asset.OrderOfItoa | asset/asset.go:44-49 | the order of a number's decimal text is that number, clamped to the 64-bit int range as Atoi's range error returns it |
| Asset.OrderOfRangeFirst | asset/asset.go:44-49 | a token whose digit run passes 2^64-1, whatever follows the run, orders at MaxInt, or at MinInt after a minus sign |
| Asset.DecodeUnsplit | asset/asset.go:36-43 | when there is no `_` prefix or nothing left to split in two, the name is the filename unchanged (star included) and the order is 0 |
| Asset.ExampleOrdered | asset/asset.go:41-51 | `"_3_Sunset.jpg"` decodes to name `"Sunset.jpg"`, order 3, no cover |
| Asset.ExampleCover | asset/asset.go:37-51 | `"*_2_Harbor.jpg"` decodes to `"Harbor.jpg"`, order 2, cover |
| Asset.ExampleCoverOnly | asset/asset.go:37-51 | `"*2_Harbor.jpg"` decodes the same: the star acts as the first `_` |
| Asset.ExampleNonNumeric | asset/asset.go:44-50 | `"_x_Boat.jpg"`: the failed Atoi only logs, the name is still `"Boat.jpg"` and the order is 0 |
| Asset.FileInfoRangeFirst | asset/asset.go:34-57 | a prefixed name whose order token is digits above 2^64-1 followed by any text without `_` keeps the name after the separator and orders at MaxInt, not 0 |
| Asset.ExampleStarKept | asset/asset.go:36-43 | `"*Harbor.jpg"` keeps its star in the name, order 0, cover |
| Asset.DigitOrder | asset/asset.go:44 | a one-digit token gives that digit's value as the order |
| Asset.RespImages | asset/asset.go:59-134 | the returned source set equals `Variants` of the bounds whether or not `metaOnly` is set; it writes the original and every variant to `outDir/name` unless `metaOnly`, and nothing otherwise |
| Asset.OutPathsNamed | asset/asset.go:97-122 | each file written is the variant's name inside `outDir`, and no two variants of an image are written to the same file |
| Asset.VariantNamesDistinct | asset/asset.go:97-122 | the variants' file names are pairwise distinct: the suffixes `_2`, `_4`, ... never repeat and the original has none |
| Asset.VariantsAt | asset/asset.go:83-119 | the k-th variant has both bounds halved k times by integer division, suffix `""` for k = 0 and `"_" + 2^k` otherwise, name `baseName + suffix + extension`, XVal `"3x"` for the original and `"tbd"` otherwise, and WVal `"<width>w"` |
| Asset.HalvingsWidths | asset/asset.go:108-119 | halved widths strictly decrease, every one but the last is above 100, the last is at most 100, and there are none iff the width is at most 100 |
| Asset.VariantsDecrease | asset/asset.go:83-119 | the first entry is the original; widths strictly decrease; only the original is produced iff the width is at most 100 |
| Asset.Width500 | asset/asset.go:83-119 | width 500 gives widths 500, 250, 125, 62 with suffixes `""`, `_2`, `_4`, `_8` |
| BuildInfo.LessCases | build/info.go:56-67 | when j's order is 0, `Less(i, j)` is i's date before j's, whatever i's order; when j's order is nonzero and i's is 0 it is false; when both are nonzero it compares orders |
| BuildInfo.LessIrreflexive | build/info.go:56-67 | `Less(k, k)` is false |
| BuildInfo.LessNotTransitive | build/info.go:57-62 | as written the comparator is not transitive: orders 1 and 2 with an unordered item dated between them |
| BuildInfo.LessIntendedDiffer | build/info.go:57-62 | an ordered item is not before an unordered one as written, but is under the intended test of both orders |
| BuildInfo.IntendedLessIsRank | build/info.go:56-67 | with `o[i].Order == 0 && o[j].Order == 0` in the first test, the comparator ranks unordered items by date after all ordered items by order |
| BuildInfo.IntendedLessStrictWeak | build/info.go:56-67 | the corrected comparator is irreflexive, transitive, and its incomparability is transitive (a strict weak order, as `sort.Sort` needs) |
| BuildInfo.NamesWithoutDot | build/info.go:171-185 | without a dot, both `stripExtension` and `extension` return the input |
| BuildInfo.StripAtLastDot | build/info.go:171-177 | with a dot, `stripExtension` is the text before the last dot |
| BuildInfo.ExtensionAtLastDot | build/info.go:179-185 | with a dot, `extension` is the last dot and what follows it |
| BuildInfo.StripExtensionRoundTrip | build/info.go:171-185 | with a dot, `stripExtension(x) + extension(x) == x` |
| BuildInfo.StripExample | build/info.go:171-185 | `"a.b.jpg"` gives `"a.b"` and `".jpg"` |
| BuildInfo.SummarySnoc | build/info.go:131-134 | appending a piece adds `" | "` only when the summary is already non-empty |
| BuildInfo.SummaryJoin | build/info.go:129-167 | with non-empty pieces, the summary is the `" | "` join of the start (when non-empty) and the pieces |
| BuildInfo.GetInfo | build/info.go:69-169 | the outcome of getInfo, as the function `InfoOf`: fatal on an undecodable stream, a panic on an FNumber without `/`, otherwise the info record |
| BuildInfo.ReadTags | build/info.go:82-167 | the EXIF part of getInfo, as `WithTags` |
| BuildInfo.FillFields | build/info.go:87-107 | copyright, description and date fields set in source order, as `TagFields` |
| BuildInfo.AppendCamera | build/info.go:129-167 | the `+=` loop over exposure, ISO, model, lens and focal gives `Summary` of the pieces |
| BuildInfo.InfoNaming | build/info.go:70-77 | filename is copied; title is `stripExtension` of the decoded name; order, cover and untitled come from `FileInfo`; both URLs are `url.QueryEscape` of the lower-dashed title and filename, as `site.Escape` gives them |
| BuildInfo.InfoWithoutExif | build/info.go:79-86 | with no reader, IncludesExif is false and every EXIF field is empty; an undecodable stream is fatal |
| BuildInfo.InfoCopyright | build/info.go:87-93 | copyright is the tag with its quotes trimmed when present and non-empty, and the configured default otherwise |
| BuildInfo.FocalOnlyForZoom | build/info.go:129-167 | one piece per present exposure, ISO, model and lens tag, plus the focal length last only when the lens model contains `-` |
| BuildInfo.FNumberRangeFirst | build/info.go:110-121 | an FNumber tag `d t/1` whose numerator digits `d` pass 2^64-1 prints `f/9223372036854775807`, whatever `t` holds |
| BuildInfo.CameraJoin | build/info.go:109-167 | the camera summary is the `" | "` join of the f-number piece (when present) and the other pieces |
| Build.LessCases | build/build.go:46-57 | the older comparator has the same j-twice behaviour and is irreflexive |
| Build.NamingPlain | build/build.go:211-213 | without a `_` prefix the title is `stripExtension(filename)` and the order 0 |
| Build.NamingOrdered | build/build.go:213-224 | with `_` prefix, two parts and a numeric token, the order is the token and the title `stripExtension(rest)` |
| Build.NamingBadToken | build/build.go:216-219 | a token Atoi rejects, not a number or a number outside the 64-bit int range, leaves title and order at their defaults |
| Build.NamingExample | build/build.go:211-224 | `"_3_Sunset.jpg"` gives title `"Sunset"`, order 3 |
| Build.GetInfoNaming | build/build.go:201-224 | an unopenable file gives the empty record; an undecodable one is fatal; otherwise filename, title and order follow the naming rule (no cover handling) |
| Build.GetCollections | build/build.go:303-314 | exactly the names of the directory entries of the listing, in listing order |
| Build.BuildNavs | build/build.go:64-73 | a new array as long as the collections, each entry named after its collection, root linking to `/index.html` and others to `/name/index.html` |
| Build.NavLinksDistinct | build/build.go:66-72 | a nav entry carries its collection's name, and different collections get different links |
| Build.CollectImages | build/build.go:103-116 | the loop over a collection listing gives `CollectInfos` of it |
| Build.CollectInfosFiles | build/build.go:108-116 | subdirectories are skipped and every plain file contributes its info, in listing order |
| Build.RestNone | build/build.go:207-210 | once one file's decode is fatal, the whole collection is aborted |
| Build.OutDirPath | build/build.go:125-143 | the root collection writes into `site`, any other into `site/<coll>` |
| Build.OutputPaths | build/build.go:125-163 | detail pages go to `<out>/<Title>.html`, the gallery to `<out>/index.html`, copied images to `<out>/images/<file>` |
| Render.MatchOf | build/render.go:69-76 | the first index whose filename matches, or 0 when none does |
| Render.MatchIndex | build/render.go:70-76 | the search loop with `break` returns `MatchOf` |
| Render.MatchFirst | build/render.go:71-75 | a first match at i gives i |
| Render.MatchNone | build/render.go:70-76 | no match gives 0 |
| Render.WrapIndices | build/render.go:77-86 | the two branches are the wrap-around neighbours `(m-1) mod n` and `(m+1) mod n` |
| Render.RenderDetail | build/render.go:65-95 | the detail context built by the renderer, as `DetailOf` |
| Render.DetailFields | build/render.go:66-91 | Collection, Collections and Image are the arguments; Previous and Next are 0 iff there are at most one item |
| Render.DetailNeighbours | build/render.go:69-86 | with more than one item, Previous and Next are the wrap-around neighbours of the match index |
| Render.DetailOfItem | build/render.go:69-86 | for distinct filenames, an item's neighbours are the items before and after it, cyclically |
| Render.GalleryLinks | build/render.go:97-126 | Gallery is true and Images unchanged; with several collections the links go to the wrap-around neighbours; with at most one both go to the collection itself |
| Render.GallerySkipsRoot | build/render.go:106-126 | a link is empty or `/x` for some x other than the root collection |
| Site.LowerDash | site/site.go:39-41 | same length; each space becomes `-` and each letter is lowercased |
| Site.LowerDashNormal | site/site.go:39-41 | the result has no space and no upper-case letter, and `LowerDash` is idempotent |
| Site.EscapeNormal | site/site.go:35-37 | `Escape` query-escapes the lower-dashed input, so lower-dashing first does not change the result |
| Site.FullPath | site/site.go:49-56 | the path always starts with `/` |
| Site.FullPathComponents | site/site.go:49-56 | its components are the prefix's followed by the name's |
| Site.KeepFileIsPrefixRule | site/site.go:97-104 | a file is kept iff some key is a prefix of its name (a true-valued key is its own prefix) |
| Site.HasKeyPrefix | site/site.go:98-104 | the inner loop with `break` finds a prefix key iff there is one |
| Site.KeepFiles | site/site.go:93-108 | an entry survives iff it was listed and is a directory or a kept file |
| Site.FlushInvalidResult | site/site.go:93-108 | after the flush, the listing is the kept entries: every directory stays, and a file stays iff a key is a prefix of its name |
| Site.FlushInvalidIdempotent | site/site.go:88-110 | a second flush with the same keys removes nothing |
| Site.FlushInvalidExample | site/site.go:97-108 | keys sunset and harbor: of sunset.jpg, sunset_2.jpg, harbor.html and boat.jpg only boat.jpg goes |
| Site.FlushInvalidEntry | site/site.go:94-107 | one loop step removes the file iff it is not kept |
| Site.FlushInvalid | site/site.go:88-110 | the disk afterwards is `FlushInvalidTree` of the old one; only the immediate listing changes |
| Site.DirNames | site/site.go:62-66 | the names of exactly the directory entries |
| Site.Flush | site/site.go:44-86 | as written: the protected list is the four scaffold names plus the directory names of the site listing (line 59), and the disk is not changed because `siteDirs` stays empty |
| Site.CollectDirNames | site/site.go:51-66 | the append loop gives the scaffold names followed by the directory names |
| Site.FlushIntended | site/site.go:44-86 | corrected: protect the scaffold names and the source's directories, then remove every other subdirectory of the site folder with `FlushDir` |
| Site.FlushIntendedResult | site/site.go:62-85 | a site subdirectory survives the corrected flush iff it is a scaffold name or a source directory |
| Site.FlushStaleExample | site/site.go:57-85 | with source `sunset` and site `sunset`, `old`, the corrected flush removes `old` |
| Site.CopyOneSelf | site/site.go:143-158 | after one copy step the destination holds a file with the source's hash unless a directory is in the way |
| Site.CopyOneOther | site/site.go:137-158 | a copy step touches no other name |
| Site.CopyAllSynced | site/site.go:137-159 | every listed name ends up synced unless a directory is in the way |
| Site.CopyAllIdempotent | site/site.go:143-149 | a second copy skips every file |
| Site.CopyTreeIdempotent | site/site.go:132-160 | copying twice gives the same tree as copying once when source and destination are apart |
| Site.CopyEntry | site/site.go:138-158 | one file: skipped iff the destination was read and hashes like the source, else rewritten with the source bytes (empty when unreadable) |
| Site.CopyFiles | site/site.go:133-159 | the copy loop gives `CopyTree` of the old disk |
| Site.ScaffoldPaths | site/site.go:133-140 | the listing is `site/<dir>` and the destination `public/<dir>` |
| Site.CopyScaffoldDir | site/site.go:132-160 | as written: the source bytes are read from `<dir>/<file>`, not from the listed `site/<dir>` |
| Site.CopyScaffoldDirIntended | site/site.go:132-160 | corrected: the source bytes come from `site/<dir>/<file>` |
| Site.CopyIntendedSynced | site/site.go:137-159 | after the corrected copy each listed file exists in `public/<dir>` with the hash of its source |
| Site.ScaffoldSourceExample | site/site.go:139-143 | with `site/js/app.js` holding data and no `js/` folder, the copy as written writes an empty file; the corrected one copies the data |
| BuildFlush.FlushFind | build/flush.go:33-49 | per name: an absent name stays absent; a directory stays, holding its flushed children; a file stays iff kept |
| BuildFlush.ListDirFlush | build/flush.go:33-37 | every directory of the flushed tree lists the flushed listing of the old one (the recursion reaches every depth) |
| BuildFlush.FlushRead | build/flush.go:34-49 | a file survives iff its base name is kept, whatever its depth |
| BuildFlush.FlushKeepsDirs | build/flush.go:34-37 | no directory is deleted |
| BuildFlush.FlushTreeIdempotent | build/flush.go:28-51 | flushing a flushed tree changes nothing |
| BuildFlush.FlushInvalidIdempotent | build/flush.go:28-51 | a second `flushInvalid` with the same set removes nothing |
| BuildFlush.FlushInvalidEntry | build/flush.go:34-48 | one step: recurse into a directory, remove an unkept file |
| BuildFlush.FlushInvalidAt | build/flush.go:28-51 | the recursive walk gives `FlushInvalidTree` of the old disk |
| BuildFlush.FlushInvalid | build/flush.go:28-51 | the same for the whole call |
| BuildFlush.Logged | build/flush.go:15-17 | a Mkdir error is logged iff there is one and it does not mention `file exists` |
| BuildFlush.NoSuppressedExist | build/flush.go:15 | the `file exists` error is suppressed |
| BuildFlush.MkdirLogged | build/flush.go:14-17 | a Mkdir whose error is logged under that rule |
| BuildFlush.FlushPrevious | build/flush.go:12-26 | `FlushDir` with the collections, then three logged Mkdirs |
| BuildFlush.SiteStage | build/flush.go:13-17 | after `FlushDir` and the first Mkdir, the site folder exists and every directory in it is a collection |
| BuildFlush.MkdirTwo | build/flush.go:18-25 | the css and js Mkdirs log nothing and add exactly those two directories |
| BuildFlush.FlushPreviousResult | build/flush.go:12-26 | afterwards css and js exist, every top-level directory is a collection or css or js, and nothing is logged |
| Sync.KeepAllowed | asset/sync.go:26-43 | an entry survives iff it is listed and is a file or an allowed directory |
| Sync.FlushDirResult | asset/sync.go:26-43 | files are untouched; a subdirectory stays iff its name equals an allowed name exactly; afterwards every directory is allowed |
| Sync.FlushDirIdempotent | asset/sync.go:21-44 | a second call with the same list removes nothing |
| Sync.IsAllowed | asset/sync.go:30-36 | the inner loop finds the name iff it is allowed |
| Sync.FlushEntry | asset/sync.go:27-42 | one step removes the directory subtree iff it is not allowed |
| Sync.FlushDir | asset/sync.go:21-44 | the disk afterwards is `FlushDirTree` of the old one |
| Deploy.FlattenWritten | deploy/deploy.go:43-56 | the recursive listing is the prefix joined to each file's path below it |
| Deploy.FilePathsSound | deploy/deploy.go:48-54 | every listed path names a regular file |
| Deploy.FilePathsComplete | deploy/deploy.go:48-54 | every regular file is listed |
| Deploy.FilePathsDistinct | deploy/deploy.go:48-54 | with unique names per directory, no path repeats |
| Deploy.SitePathsWritten | deploy/deploy.go:43-56 | `GetPaths(prefix)` is `prefix + "/" + ...` for each file under `public + prefix` |
| Deploy.SitePathsFiles | deploy/deploy.go:48-54 | every returned path starts with `prefix + "/"` followed by a name, and reads a regular file |
| Deploy.SitePathsComplete | deploy/deploy.go:48-54 | every file below the prefix is returned |
| Deploy.SitePathsDistinct | deploy/deploy.go:48-54 | no returned path repeats |
| Deploy.NoListingNoFile | deploy/deploy.go:44-47 | an unreadable directory holds no file (it contributes nothing) |
| Deploy.GetPaths | deploy/deploy.go:43-56 | the recursive loop returns `SitePaths` of the disk |
| Deploy.SubPaths | deploy/deploy.go:49-51 | a directory contributes its contents, in place |
| Deploy.JobsMembers | deploy/deploy.go:83 | a job is sent iff it carries the caller's prefix, its force flag and one of the paths; distinct paths give distinct jobs |
| Deploy.DeployJobsOnce | deploy/deploy.go:58-92 | a deploy sends one job for each site file below `public` and no job twice |
| Deploy.DeployDirs | deploy/deploy.go:58-92 | the job sequence sent on the channel is `DeployJobs` of the disk |
| Deploy.SubJobs | deploy/deploy.go:79-81 | a directory's jobs are those of its subtree |
| Deploy.DeployJobsArePaths | deploy/deploy.go:43-84 | the job paths, in order, are `GetPaths("")` with the given force flag |
| Deploy.PutFiles | deploy/deploy.go:58-117 | the worker pool with the `workers` setting (1 goroutine for 0, none when negative): with no driver name nothing is uploaded, and DeployDirs blocks unless there are no jobs and no done signal is awaited; with an unknown name no jobs return normally, and a job panics, or blocks when no worker runs; otherwise every job is put in order |
| Deploy.PutJobs | deploy/deploy.go:104-115 | the jobs are put in order and each error is logged as `prefix+path err`, never returned |
| Deploy.PutAllUnchanged | deploy/deploy.go:104-115 | unforced jobs whose remote copies match and whose GetObject calls succeed change nothing and log nothing |
| Deploy.PutAllHeld | deploy/deploy.go:104-115 | unforced jobs whose keys already hold the objects they would store leave the bucket as it is whatever fails, and log only when both GetObject and PutObject fail |
| Deploy.Flush | deploy/deploy.go:34-41 | `FlushFiles` receives exactly `GetPaths("")` and its error is only logged |
| Deploy.Deploy | deploy/deploy.go:25-32 | the uploads, then the flush, applied to the bucket in that order, with the flush's logged error; a panic or a block during the uploads leaves the bucket alone and the flush is never reached; with a driver other than `s3` the flush panics |
| Deploy.DeployedKept | deploy/deploy.go:34-37 | no deployed file's key is stale for the flush that follows |
| Deploy.DeployJobsReady | deploy/deploy.go:74-84 | every deploy job reads a local file, and distinct jobs have distinct keys |
| Deploy.DeployUploads | deploy/deploy.go:25-30 | a forced deploy without failures logs nothing and stores every local file's bytes under its key |
| Deploy.FlushMirror | deploy/driver/drivers/s3/s3.go:113-137 | flushing with the deployed paths leaves exactly their keys, with their objects unchanged |
| Deploy.DeployMirrors | deploy/deploy.go:25-32 | a forced deploy without failures leaves the bucket holding exactly the local site's files with their bytes |
| Deploy.DeployTwiceUnchanged | deploy/deploy.go:25-30 | after that, an unforced deploy of the same tree leaves the bucket as it is whatever calls fail (a failed GetObject re-uploads the same object); it logs nothing unless a key's GetObject and PutObject both fail, and with every GetObject answering it uploads nothing |
| S3.Key | deploy/driver/drivers/s3/s3.go:71 | the stored key has no leading `/`; prefixing one gives back a path with a single leading separator |
| S3.LastSegment | deploy/driver/drivers/s3/s3.go:47-52 | the last segment holds no dot |
| S3.HeadersFor | deploy/driver/drivers/s3/s3.go:52-67 | a content type exactly for html, css, js and jpg; a cache control exactly for html and jpg |
| S3.HeadersByExtension | deploy/driver/drivers/s3/s3.go:47-67 | the headers depend only on the last `.` segment |
| S3.HeadersNoDot | deploy/driver/drivers/s3/s3.go:47-67 | a path with no dot gets empty headers |
| S3.TrimQuoted | deploy/driver/drivers/s3/s3.go:103 | trimming the quotes of a quoted digest gives back the digest |
| S3.PutDecisionRules | deploy/driver/drivers/s3/s3.go:33-84 | a read failure is returned before any upload; without force the upload is skipped iff GetObject succeeds and the ETag matches, so a failed GetObject means an upload; with force it is always attempted; an upload stores the bytes and the headers of the extension; other keys are untouched |
| S3.PutThenSkip | deploy/driver/drivers/s3/s3.go:43-46 | after an upload, putting the same bytes without force is skipped when GetObject answers, and otherwise stores the same object or nothing |
| S3.Bucket.PutFile | deploy/driver/drivers/s3/s3.go:33-84 | the bucket and the error follow `PutDecision` |
| S3.Bucket.FileExistsAtPath | deploy/driver/drivers/s3/s3.go:87-105 | true iff GetObject succeeds and the key has an object with an ETag that, quotes trimmed, equals the digest of the bytes |
| S3.PathMap | deploy/driver/drivers/s3/s3.go:113-116 | its keys are exactly the valid paths, all mapped to true |
| S3.DeleteWalk | deploy/driver/drivers/s3/s3.go:125-136 | only listed keys whose `"/"+key` is not valid are deleted |
| S3.WalkNoFailure | deploy/driver/drivers/s3/s3.go:125-136 | with no failing delete, exactly the listed stale keys are deleted |
| S3.WalkStopped | deploy/driver/drivers/s3/s3.go:132-135 | the first delete error stops the loop |
| S3.FirstPage | deploy/driver/drivers/s3/s3.go:120 | one ListObjects call returns a prefix of the listing of at most 1000 keys |
| S3.FlushKeepsValid | deploy/driver/drivers/s3/s3.go:120-126 | a valid key is never deleted; a list failure deletes nothing and returns the error |
| S3.FlushExact | deploy/driver/drivers/s3/s3.go:113-137 | for a bucket of at most 1000 keys and no failures, exactly the stale keys are deleted |
| S3.FlushIdempotent | deploy/driver/drivers/s3/s3.go:107-139 | a second flush with the same paths deletes nothing |
| S3.FlushMissesSecondPage | deploy/driver/drivers/s3/s3.go:120-125 | as written, with more than 1000 keys, the 1001st stale key is not deleted |
| S3.FlushAllExact | deploy/driver/drivers/s3/s3.go:107-139 | corrected walk over every page: exactly the stale keys are deleted, whatever the bucket size |
| S3.FlushAllIdempotent | deploy/driver/drivers/s3/s3.go:107-139 | corrected walk: a second flush deletes nothing |
| S3.Bucket.DeleteStale | deploy/driver/drivers/s3/s3.go:125-137 | the delete loop removes the walk's deleted keys and returns its error |
| S3.Bucket.FlushFiles | deploy/driver/drivers/s3/s3.go:107-139 | as written: the bucket loses the keys `FlushWalk` deletes on the first page |
| S3.Bucket.FlushFilesAll | deploy/driver/drivers/s3/s3.go:107-139 | corrected: the bucket loses the keys deleted on every page |
| FileTree.LocalDisk.ReadDir | site/site.go:89 | the listing of a directory, or nothing when it cannot be read |
| FileTree.ReadFileFound | deploy/driver/drivers/s3/s3.go:39 | `LocalDisk.ReadFile` reads `ReadFileAt` on the path's components: what it reads is a file of the path's last name listed in its parent directory, and in a valid tree a failed read means no such file is listed |
| FileTree.LocalDisk.RemoveAll | asset/sync.go:38 | the path and its subtree are removed |
| FileTree.LocalDisk.Mkdir | build/flush.go:14 | creates an empty directory; `file exists` when the name is taken |
| GoStrings.SplitN2 | asset/asset.go:42 | one part iff there is no separator; with two, the first holds no separator and they rejoin to the input |
| GoStrings.TrimLeft | asset/asset.go:42 | the result is a suffix that does not start with the trimmed character, and only that character was dropped |
| GoStrings.AtoiItoa | asset/asset.go:44 | `Atoi` reads back the decimal text of every 64-bit int; the text of a value outside that range is an error, returned with the nearer bound |
| GoStrings.AtoiValueRange | asset/asset.go:44 | when the digits after the sign pass 2^64-1, Atoi fails and returns the int bound of the sign, whether or not the text is otherwise a number |
| GoStrings.AtoiRangeFirst | asset/asset.go:44 | digits above 2^64-1 followed by any text, unsigned, `+` or `-`, are a range error returned with MaxInt, MaxInt or MinInt |
| GoStrings.JoinSplit | build/info.go:172-174 | joining the split parts with the separator gives back the input |
| GoStrings.ToLower | site/site.go:40 | same length; no upper-case ASCII letter remains, each one becomes the same letter in lower case, and every other character is kept |
| GoStrings.ToLowerIdempotent | site/site.go:40 | lowering twice is lowering once |
| GoStrings.ReplaceAll | site/site.go:40 | same length; no `a` remains when `b` differs from it, and every other character is kept |
| GoStrings.ReplaceAllJoinSplit | site/site.go:40 | replacing every `a` by `b` equals splitting at each `a` and joining the pieces with `b` |

## Left out

- md5 (asset/asset.go:28-32, asset/sync.go:14-18, s3.go:92-94) is an uninterpreted function parameter `hash`. The lemmas that need "a hex digest contains no quote" take it as a requirement.
- EXIF decoding, time parsing and formatting, and the `f/%.1f` float formatting are foreign library calls:
  - tags are optional strings (`BuildInfo.Tags`);
  - the formatting functions and `url.QueryEscape` are parameters (`BuildInfo.Env`); the lower-dashing that `site.Escape` does before the query escape is modelled (`Site.Escape`).
- Image decoding, Lanczos resizing and JPEG encoding are pixel work. Only the bounds; suffix and name arithmetic are modelled, and the written files appear as their output paths. A failed `image.Decode` with metaOnly false, which panics in Go on the nil image's `Bounds()` (asset/asset.go:77-81), is not modelled: the bounds are a parameter.
- Templates, rice boxes, `renderAbout` and `loadTemplates` are library calls. The renderers return the context values they would pass to the template.
- Configuration from viper (`auto-untitle`, `root-collection`, `workers`, `copyright`, `home-title`, the driver name) comes in as parameters.
- Goroutines and channels in `DeployDirs` and `PutFiles` are modelled as one sequential job list handled in order. The ways they end are modelled as `Deploy.Run` outcomes: a panic on the first job an unknown driver takes, and a wait that never ends when no worker takes a job or no worker signals done (deploy/deploy.go:63-90, 99-102).
- Deploy.PutFiles: with the `workers` setting at 0, DeployDirs waits for no done signal (deploy/deploy.go:87-90), so Flush can start while the one worker is still uploading its last job; the model finishes every upload first.
- The AWS SDK and session setup (s3.go:141-164) are modelled as a map held in `S3.Bucket`:
  - injected failures (`S3.Faults`) stand in for failed GetObject, PutObject, ListObjects and DeleteObject calls;
  - `InitializeSession` failing is not modelled;
  - the listing order of keys is a parameter.
- deploy/driver/driver.go is a registry: only the `s3` driver is modelled, and any other name is the nil-driver panic.
- cmd/root.go and main.go are CLI wiring. cmd/root.go calls `deploy.Deploy()` without the force argument that deploy/deploy.go:25 takes.
- build/error.go, both `checkErr` and every `log` call are logging filters. Logged lines are kept only where a contract is about them: `Deploy.PutFiles`, `Deploy.Flush` and `BuildFlush.FlushPrevious`.
- build/scaffold.go, the CSS copy loop (build/build.go:78-97) and `Scaffold`'s Mkdirs are plain file copying. The one decision in them is the hash skip, modelled in `Site.CopyEntry`.
- build/build.go's `Build` and `buildCollection`:
  - `sort.Sort` is not modelled;
  - writing the rendered pages and `collectionDirs` (175-191) are not modelled.
  - The paths they write to are modelled.
- build/build.go's older `flushPrevious` (316-335) is not modelled: only the build/flush.go version is.
- Directory listings keep their stored order. `ioutil.ReadDir` sorts by name, which no property here depends on.
- Site.LowerDash: lowercasing is ASCII only.
- The local disk never fails except where a path is missing or of the wrong kind. Permission errors are not modelled.
- Deploy.Flush, Deploy.Deploy: use the as-written first-page `FlushFiles`, so their mirror property (`Deploy.DeployMirrors`) needs a bucket of at most 1000 keys.

## Findings

| source | as written | input that shows it | evidently intended | confidence | as-written member | corrected member |
|---|---|---|---|---|---|---|
| build/info.go:57 (and build/build.go:47) | `o[j].Order == 0 && o[j].Order == 0` tests j twice, so unordered j compares by date against ordered i and the order is not transitive | orders 1 (date 10), 2 (date 0), 0 (date 5): a<b, b<c, but not a<c | `o[i].Order == 0 && o[j].Order == 0`: ordered items first by order, then unordered by date | high, not executed | BuildInfo.LessNotTransitive | BuildInfo.IntendedLessStrictWeak |
| site/site.go:59 | the site listing is stored in `sourceDirs`, so `siteDirs` stays nil and the removal loop never runs | source `sunset`, site `sunset` and `old`: `old` is kept | read the site listing into `siteDirs` and protect the source's directories | high, not executed | Site.Flush | Site.FlushStaleExample |
| site/site.go:139 | `inPath` is `dir/file`, relative to the working directory, while the listing is `site/dir` | `site/js/app.js` with data and no `js/` folder: an empty `public/js/app.js` is written | read from `site/dir/file` | medium, not executed | Site.ScaffoldSourceExample | Site.CopyIntendedSynced |
| deploy/driver/drivers/s3/s3.go:120-125 | one `ListObjects` call, no continuation, and it returns at most 1000 keys | 1001 stale keys: the last one is never deleted | follow the listing's continuation until every key is seen | medium, not executed | S3.FlushMissesSecondPage | S3.FlushAllExact |

For every row the corrected definition is modelled and proved beside the
as-written one:

- `BuildInfo.IntendedLess`;
- `Site.FlushIntended` (through `Sync.FlushDir`);
- `Site.CopyScaffoldDirIntended`;
- `S3.Bucket.FlushFilesAll`.

The deploy and build paths keep calling the as-written code, as the program does.
