/**
 * build/info.go: the record kept for each image, its ordering, the file
 * name helpers, and how getInfo fills the record from the file name and
 * the EXIF tags. Tag decoding, time parsing and float formatting are
 * parameters; what is kept is the naming and the assembly of the fields.
 */
module BuildInfo {
  import opened GoStrings
  import Asset
  import Site

  /** The instant an image was taken; 0 stands for Go's zero time. */
  type Instant = int
  const ZeroTime: Instant := 0

  datatype PrintInfo = PrintInfo(
    filename: string, title: string, untitled: bool, fileURL: string, relURL: string,
    includesExif: bool, order: int, description: string, date: Instant, dateString: string,
    cameraInfo: string, copyright: string, cover: bool)

  /** A navigation entry: a collection name and the page it links to. */
  datatype NavInfo = NavInfo(name: string, link: string)

  const EmptyInfo := PrintInfo("", "", false, "", "", false, 0, "", ZeroTime, "", "", "", false)

  // ---- ordering ---------------------------------------------------------

  /**
   * The body of Ordered.Less as written, on the order and date of o[i] and
   * o[j]: the first test looks at j's order twice.
   */
  predicate LessKeys(iOrder: int, iDate: Instant, jOrder: int, jDate: Instant) {
    if jOrder == 0 && jOrder == 0 then iDate < jDate
    else if jOrder == 0 then true
    else if iOrder == 0 then false
    else iOrder < jOrder
  }

  /** Ordered.Less on o[i] = a and o[j] = b. */
  predicate Less(a: PrintInfo, b: PrintInfo) {
    LessKeys(a.order, a.date, b.order, b.date)
  }

  /**
   * Less decided by case: by date whenever b is unordered, whatever a's
   * order; false for an unordered a against an ordered b; by order when both
   * are ordered. The branch that puts ordered before unordered items is
   * never taken.
   */
  lemma LessCases(a: PrintInfo, b: PrintInfo)
    ensures b.order == 0 ==> (Less(a, b) <==> a.date < b.date)
    ensures b.order != 0 && a.order == 0 ==> !Less(a, b)
    ensures b.order != 0 && a.order != 0 ==> (Less(a, b) <==> a.order < b.order)
    ensures Less(a, b) <==> if b.order == 0 then a.date < b.date else a.order != 0 && a.order < b.order
  {
  }

  /** No item sorts before itself. */
  lemma LessIrreflexive(a: PrintInfo)
    ensures !Less(a, a)
  {
  }

  /** The as-written order is not transitive: an ordered item can precede another, which precedes an unordered one dated later, while the first does not precede the third. */
  lemma LessNotTransitive(a: PrintInfo, b: PrintInfo, c: PrintInfo)
    requires a == EmptyInfo.(order := 1, date := 10)
    requires b == EmptyInfo.(order := 2, date := 0)
    requires c == EmptyInfo.(order := 0, date := 5)
    ensures Less(a, b) && Less(b, c) && !Less(a, c)
  {
  }

  /** An ordered item against an unordered one: as written it goes by date, as intended it comes first. */
  lemma LessIntendedDiffer(a: PrintInfo, b: PrintInfo)
    requires a == EmptyInfo.(order := 1, date := 20)
    requires b == EmptyInfo.(order := 0, date := 10)
    ensures !Less(a, b) && IntendedLess(a, b)
  {
  }

  /** The evident intent: by date when both are unordered, ordered items before unordered ones, and by order otherwise. */
  predicate IntendedLess(a: PrintInfo, b: PrintInfo) {
    if a.order == 0 && b.order == 0 then a.date < b.date
    else if b.order == 0 then true
    else if a.order == 0 then false
    else a.order < b.order
  }

  /** The items are ranked by a key: ordered items by order, ahead of the unordered ones by date. */
  function Rank(a: PrintInfo): (int, int) {
    if a.order == 0 then (1, a.date) else (0, a.order)
  }

  predicate RankLess(x: (int, int), y: (int, int)) {
    x.0 < y.0 || (x.0 == y.0 && x.1 < y.1)
  }

  /** The intended comparator compares the rank keys lexicographically, so it is a strict weak order. */
  lemma IntendedLessIsRank(a: PrintInfo, b: PrintInfo)
    ensures IntendedLess(a, b) <==> RankLess(Rank(a), Rank(b))
  {
  }

  /** The intended comparator is irreflexive and transitive, and incomparability is transitive too. */
  lemma IntendedLessStrictWeak(a: PrintInfo, b: PrintInfo, c: PrintInfo)
    ensures !IntendedLess(a, a)
    ensures IntendedLess(a, b) && IntendedLess(b, c) ==> IntendedLess(a, c)
    ensures !IntendedLess(a, b) && !IntendedLess(b, a) && !IntendedLess(b, c) && !IntendedLess(c, b) ==>
      !IntendedLess(a, c) && !IntendedLess(c, a)
  {
    IntendedLessIsRank(a, a);
    IntendedLessIsRank(a, b);
    IntendedLessIsRank(b, a);
    IntendedLessIsRank(b, c);
    IntendedLessIsRank(c, b);
    IntendedLessIsRank(a, c);
    IntendedLessIsRank(c, a);
  }

  // ---- names ----------------------------------------------------------

  /** stripExtension: drop the last `.`-separated segment when there is more than one. */
  function StripExtension(s: string): string {
    var split := Split(s, '.');
    if |split| > 1 then Join(split[..|split| - 1], ".") else s
  }

  /** extension: `.` and the last segment, or the whole input when there is no dot. */
  function Extension(s: string): string {
    var split := Split(s, '.');
    if |split| > 1 then "." + split[|split| - 1] else s
  }

  /** Without a dot both helpers return the input. */
  lemma NamesWithoutDot(s: string)
    requires '.' !in s
    ensures StripExtension(s) == s && Extension(s) == s
  {
  }

  /** stripExtension keeps what is before the last dot. */
  lemma StripAtLastDot(s: string)
    requires '.' in s
    ensures StripExtension(s) == s[..LastIndexOf(s, '.')]
  {
    var k := LastIndexOf(s, '.');
    SplitAtLast(s, '.');
    var split := Split(s, '.');
    assert split[..|split| - 1] == Split(s[..k], '.');
    JoinSplit(s[..k], '.');
  }

  /** extension keeps the last dot and what follows it. */
  lemma ExtensionAtLastDot(s: string)
    requires '.' in s
    ensures Extension(s) == s[LastIndexOf(s, '.')..]
  {
    var k := LastIndexOf(s, '.');
    SplitAtLast(s, '.');
    var split := Split(s, '.');
    assert |split| > 1 && split[|split| - 1] == s[k + 1..];
    assert Extension(s) == "." + s[k + 1..];
    DropOne(s, k);
  }

  /** For a name with a dot, the two halves put back together give the name. */
  lemma StripExtensionRoundTrip(s: string)
    requires '.' in s
    ensures StripExtension(s) + Extension(s) == s
  {
    StripAtLastDot(s);
    ExtensionAtLastDot(s);
    var k := LastIndexOf(s, '.');
    assert s == s[..k] + s[k..];
  }

  lemma StripExample(s: string)
    requires s == "a.b.jpg"
    ensures StripExtension(s) == "a.b" && Extension(s) == ".jpg"
  {
    assert s[5] == 'p' && s[4] == 'j' && s[6] == 'g' && s[3] == '.';
    assert LastIndexOf(s, '.') == 3;
    StripAtLastDot(s);
    ExtensionAtLastDot(s);
  }

  // ---- camera summary -------------------------------------------------

  /** `info.CameraInfo += piece`, with " | " in front unless the summary is still empty. */
  function AppendPiece(cam: string, piece: string): string {
    (if cam != "" then cam + " | " else cam) + piece
  }

  /** The summary after appending each piece in turn. */
  function Summary(cam: string, pieces: seq<string>): string
    decreases |pieces|
  {
    if pieces == [] then cam else Summary(AppendPiece(cam, pieces[0]), pieces[1..])
  }

  /** With non-empty pieces, the summary is the pieces joined by " | ", starting from what was there. */
  lemma {:induction false} SummaryJoin(cam: string, pieces: seq<string>)
    requires forall i :: 0 <= i < |pieces| ==> pieces[i] != ""
    ensures Summary(cam, pieces) == if cam == "" then Join(pieces, " | ") else Join([cam] + pieces, " | ")
    decreases |pieces|
  {
    if pieces != [] {
      var next := AppendPiece(cam, pieces[0]);
      SummaryJoin(next, pieces[1..]);
      assert next != "";
      if cam == "" {
        assert next == pieces[0];
        assert [next] + pieces[1..] == pieces;
      } else {
        JoinAppend([cam], pieces[0], " | ");
        assert Join([cam, pieces[0]], " | ") == next by {
          assert [cam] + [pieces[0]] == [cam, pieces[0]];
        }
        JoinConsPair(cam, pieces[0], pieces[1..]);
      }
    }
  }

  /** Appending one more piece to the summary. */
  lemma {:induction false} SummarySnoc(cam: string, pieces: seq<string>, p: string)
    ensures Summary(cam, pieces + [p]) == AppendPiece(Summary(cam, pieces), p)
    decreases |pieces|
  {
    if pieces == [] {
      assert ([] + [p])[1..] == [];
    } else {
      assert (pieces + [p])[1..] == pieces[1..] + [p];
      SummarySnoc(AppendPiece(cam, pieces[0]), pieces[1..], p);
    }
  }

  /** Joining [a, b] + rest is joining [a ++ sep ++ b] + rest. */
  lemma JoinConsPair(a: string, b: string, rest: seq<string>)
    ensures Join([a + " | " + b] + rest, " | ") == Join([a] + ([b] + rest), " | ")
  {
    assert ([a] + ([b] + rest))[1..] == [b] + rest;
    if rest == [] {
      assert [b] + rest == [b];
    } else {
      assert ([a + " | " + b] + rest)[1..] == rest;
      assert ([b] + rest)[1..] == rest;
    }
  }

  /** The EXIF tags getInfo reads, each present or not; values are the tags' strings. */
  datatype Tags = Tags(
    copyright: Option<string>, description: Option<string>, dateTime: Option<string>,
    fNumber: Option<string>, exposure: Option<string>, iso: Option<string>,
    model: Option<string>, lens: Option<string>, focal: Option<string>)

  /** The reader given to getInfo: none, one whose EXIF decoding fails, or one with tags. */
  datatype Reader = NoReader | Undecodable | Decoded(tags: Tags)

  /** getInfo's outcome: the record, or the process ends (log.Fatal, or a panic on an index). */
  datatype Outcome = Fatal | Panic | Info(info: PrintInfo)

  /**
   * The foreign parts: `url.QueryEscape` (applied after lower-dashing, see
   * Site.Escape), the date parser, two distinct date formatters (`formatDate`
   * is info.go's layout "January, 2006", `formatDay` build.go's layout
   * "January 2, 2006"), and `f/%.1f` formatting.
   */
  datatype Env = Env(
    autoUntitle: bool, defaultCopyright: string, escape: string -> string,
    parseDate: string -> Option<Instant>, formatDate: Instant -> string, formatDay: Instant -> string,
    formatRatio: (int, int) -> string)

  /** The first summary piece from the FNumber tag: None when the tag has no `/` and f[1] is out of range. */
  function FNumberPiece(fstop: string, env: Env): Option<string> {
    var f := Split(Trim(fstop, '"'), '/');
    if |f| < 2 then None
    else
      var n0 := Asset.OrderOf(f[0]);
      var n1 := Asset.OrderOf(f[1]);
      Some(if n1 == 1 then "f/" + Itoa(n0) else env.formatRatio(n0, n1))
  }

  /**
   * An f-number whose numerator's digits pass 2^64-1 before anything else is
   * read prints the int bound, since the f-number goes through the same Atoi
   * value as the order.
   */
  lemma FNumberRangeFirst(d: string, t: string, env: Env)
    requires AllDigits(d) && DigitsValue(d) > MaxUint64 && '/' !in t
    ensures FNumberPiece(d + t + "/1", env) == Some("f/" + Itoa(MaxInt))
  {
    SplitOverDenominator(d, t);
    Asset.DigitOrder('1');
    Asset.OrderOfRangeFirst(d, t);
  }

  /** The tag text of FNumberRangeFirst splits into the numerator and "1". */
  lemma SplitOverDenominator(d: string, t: string)
    requires AllDigits(d) && d != [] && '/' !in t
    ensures Split(Trim(d + t + "/1", '"'), '/') == [d + t, "1"]
  {
    var s := d + t + "/1";
    assert s[0] == d[0] && s[|s| - 1] == '1';
    assert Trim(s, '"') == s;
    assert s == (d + t) + ['/'] + "1";
    assert '/' !in d + t;
    SplitConcatNoSep(d + t, '/', "1");
    assert IndexOf("1", '/') < 0;
  }

  /** The pieces appended after the f-number, in order; focal length only for a lens whose tag has a `-`. */
  function CameraPieces(t: Tags): seq<string> {
    (if t.exposure.Some? then [Trim(t.exposure.value, '"') + "s"] else []) +
    (if t.iso.Some? then ["ISO " + t.iso.value] else []) +
    (if t.model.Some? then [Trim(t.model.value, '"')] else []) +
    (if t.lens.Some? then [Trim(t.lens.value, '"')] else []) +
    (if t.lens.Some? && Contains(t.lens.value, "-") && t.focal.Some? then [t.focal.value + "mm"] else [])
  }

  /** The naming part of getInfo, the same for every reader. */
  function NamedInfo(filename: string, env: Env): PrintInfo {
    var d := Asset.FileInfo(filename, env.autoUntitle);
    var title := StripExtension(d.name);
    EmptyInfo.(filename := filename, title := title, untitled := d.untitled,
      relURL := Site.Escape(title, env.escape), fileURL := Site.Escape(filename, env.escape), order := d.order, cover := d.cover)
  }

  /** The fields getInfo fills from the copyright, description and date tags. */
  function TagFields(info: PrintInfo, t: Tags, env: Env): PrintInfo {
    var date := if t.dateTime.Some? && t.dateTime.value != "" then env.parseDate(t.dateTime.value) else None;
    info.(
      includesExif := true,
      copyright := if t.copyright.Some? && t.copyright.value != "" then Trim(t.copyright.value, '"') else env.defaultCopyright,
      description := if t.description.Some? && t.description.value != "" then Trim(t.description.value, '"') else info.description,
      date := if date.Some? then date.value else info.date,
      dateString := if date.Some? then env.formatDate(date.value) else info.dateString)
  }

  /** The record once the tags are read, or the panic when the f-number has no denominator. */
  function WithTags(info: PrintInfo, t: Tags, env: Env): Outcome {
    var fp := if t.fNumber.Some? then FNumberPiece(t.fNumber.value, env) else Some(info.cameraInfo);
    if fp.None? then Panic
    else Info(TagFields(info, t, env).(cameraInfo := Summary(fp.value, CameraPieces(t))))
  }

  /** What getInfo returns. */
  function InfoOf(filename: string, r: Reader, env: Env): Outcome {
    var info := NamedInfo(filename, env);
    match r
      case NoReader => Info(info)
      case Undecodable => Fatal
      case Decoded(t) => WithTags(info, t, env)
  }

  /** getInfo: fill the record from the name, then from the tags one field at a time. */
  method GetInfo(filename: string, r: Reader, env: Env) returns (res: Outcome)
    ensures res == InfoOf(filename, r, env)
  {
    var info := EmptyInfo.(filename := filename);
    var d := Asset.FileInfo(filename, env.autoUntitle);
    info := info.(title := StripExtension(d.name));
    info := info.(untitled := d.untitled);
    info := info.(relURL := Site.Escape(info.title, env.escape));
    info := info.(fileURL := Site.Escape(info.filename, env.escape));
    info := info.(order := d.order);
    info := info.(cover := d.cover);
    if r.NoReader? {
      return Info(info);
    }
    if r.Undecodable? {
      return Fatal;
    }
    res := ReadTags(info, r.tags, env);
  }

  /** The part of getInfo after a successful EXIF decode. */
  method ReadTags(info0: PrintInfo, t: Tags, env: Env) returns (res: Outcome)
    ensures res == WithTags(info0, t, env)
  {
    var info := FillFields(info0, t, env);
    if t.fNumber.Some? {
      var fp := FNumberPiece(t.fNumber.value, env);
      if fp.None? {
        return Panic;
      }
      info := info.(cameraInfo := fp.value);
    }
    var cam := AppendCamera(info.cameraInfo, t);
    info := info.(cameraInfo := cam);
    return Info(info);
  }

  /** The copyright, description and date steps of getInfo. */
  method FillFields(info0: PrintInfo, t: Tags, env: Env) returns (info: PrintInfo)
    ensures info == TagFields(info0, t, env)
  {
    info := info0.(includesExif := true);
    if t.copyright.Some? && t.copyright.value != "" {
      info := info.(copyright := Trim(t.copyright.value, '"'));
    } else {
      info := info.(copyright := env.defaultCopyright);
    }
    if t.description.Some? && t.description.value != "" {
      info := info.(description := Trim(t.description.value, '"'));
    }
    if t.dateTime.Some? && t.dateTime.value != "" {
      var date := env.parseDate(t.dateTime.value);
      if date.Some? {
        info := info.(date := date.value);
        info := info.(dateString := env.formatDate(info.date));
      }
    }
  }

  /** The `+=` steps of getInfo that extend the camera summary after the f-number. */
  method AppendCamera(start: string, t: Tags) returns (cam: string)
    ensures cam == Summary(start, CameraPieces(t))
  {
    cam := start;
    ghost var pieces: seq<string> := [];
    ghost var exposure := if t.exposure.Some? then [Trim(t.exposure.value, '"') + "s"] else [];
    ghost var iso := if t.iso.Some? then ["ISO " + t.iso.value] else [];
    ghost var model := if t.model.Some? then [Trim(t.model.value, '"')] else [];
    ghost var lens := if t.lens.Some? then [Trim(t.lens.value, '"')] else [];
    var zoom := false;
    if t.exposure.Some? {
      SummarySnoc(start, pieces, Trim(t.exposure.value, '"') + "s");
      pieces := pieces + [Trim(t.exposure.value, '"') + "s"];
      cam := AppendPiece(cam, Trim(t.exposure.value, '"') + "s");
    }
    assert pieces == exposure;
    if t.iso.Some? {
      SummarySnoc(start, pieces, "ISO " + t.iso.value);
      pieces := pieces + ["ISO " + t.iso.value];
      cam := AppendPiece(cam, "ISO " + t.iso.value);
    }
    assert pieces == exposure + iso;
    if t.model.Some? {
      SummarySnoc(start, pieces, Trim(t.model.value, '"'));
      pieces := pieces + [Trim(t.model.value, '"')];
      cam := AppendPiece(cam, Trim(t.model.value, '"'));
    }
    assert pieces == exposure + iso + model;
    if t.lens.Some? {
      SummarySnoc(start, pieces, Trim(t.lens.value, '"'));
      pieces := pieces + [Trim(t.lens.value, '"')];
      cam := AppendPiece(cam, Trim(t.lens.value, '"'));
      if Contains(t.lens.value, "-") {
        zoom := true;
      }
    }
    assert pieces == exposure + iso + model + lens;
    if zoom {
      if t.focal.Some? {
        SummarySnoc(start, pieces, t.focal.value + "mm");
        pieces := pieces + [t.focal.value + "mm"];
        cam := AppendPiece(cam, t.focal.value + "mm");
      }
    }
    assert pieces == CameraPieces(t);
  }

  /**
   * Whatever the reader, a returned record carries the decoded file name:
   * the title is the decoded name without its extension, order, cover and
   * untitled are FileInfo's, and both URLs query-escape the lower-dashed name.
   */
  lemma InfoNaming(filename: string, r: Reader, env: Env)
    requires InfoOf(filename, r, env).Info?
    ensures var info := InfoOf(filename, r, env).info; var d := Asset.FileInfo(filename, env.autoUntitle);
      info.filename == filename && info.title == StripExtension(d.name) &&
      info.order == d.order && info.cover == d.cover && info.untitled == d.untitled &&
      info.relURL == env.escape(Site.LowerDash(info.title)) && info.fileURL == env.escape(Site.LowerDash(filename))
  {
  }

  /** Without a reader the record has no EXIF fields; an undecodable one ends the process. */
  lemma InfoWithoutExif(filename: string, env: Env)
    ensures var o := InfoOf(filename, NoReader, env);
      o.Info? && !o.info.includesExif && o.info.copyright == "" && o.info.description == "" &&
      o.info.cameraInfo == "" && o.info.date == ZeroTime && o.info.dateString == ""
    ensures InfoOf(filename, Undecodable, env) == Fatal
  {
  }

  /** A decoded image falls back to the configured copyright when its tag is missing or empty. */
  lemma InfoCopyright(filename: string, t: Tags, env: Env)
    requires InfoOf(filename, Decoded(t), env).Info?
    ensures var info := InfoOf(filename, Decoded(t), env).info;
      info.includesExif &&
      (t.copyright.None? || t.copyright.value == "" ==> info.copyright == env.defaultCopyright) &&
      (t.copyright.Some? && t.copyright.value != "" ==> info.copyright == Trim(t.copyright.value, '"'))
  {
  }

  /** The focal length is a piece exactly when a lens tag with a `-` and a focal tag are both present. */
  lemma FocalOnlyForZoom(t: Tags)
    ensures var base := (if t.exposure.Some? then 1 else 0) + (if t.iso.Some? then 1 else 0) +
                        (if t.model.Some? then 1 else 0) + (if t.lens.Some? then 1 else 0);
      |CameraPieces(t)| == base + (if t.lens.Some? && Contains(t.lens.value, "-") && t.focal.Some? then 1 else 0)
    ensures t.lens.Some? && Contains(t.lens.value, "-") && t.focal.Some? ==>
      CameraPieces(t)[|CameraPieces(t)| - 1] == t.focal.value + "mm"
  {
  }

  /**
   * With non-empty pieces the camera summary is the f-number and the
   * pieces joined by " | ", and without an f-number it is the pieces alone.
   */
  lemma CameraJoin(filename: string, t: Tags, env: Env)
    requires InfoOf(filename, Decoded(t), env).Info?
    requires forall i :: 0 <= i < |CameraPieces(t)| ==> CameraPieces(t)[i] != ""
    ensures var cam := InfoOf(filename, Decoded(t), env).info.cameraInfo; var ps := CameraPieces(t);
      (t.fNumber.None? ==> cam == Join(ps, " | ")) &&
      (t.fNumber.Some? && FNumberPiece(t.fNumber.value, env) != Some("") ==>
        cam == Join([FNumberPiece(t.fNumber.value, env).value] + ps, " | "))
  {
    var ps := CameraPieces(t);
    if t.fNumber.Some? {
      SummaryJoin(FNumberPiece(t.fNumber.value, env).value, ps);
    } else {
      SummaryJoin("", ps);
    }
  }
}
