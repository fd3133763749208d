/**
 * Package asset (asset/asset.go): decoding of the ordering and cover
 * conventions in source filenames, and the list of responsive image variants
 * an image is cut into.
 */
module Asset {
  import opened GoStrings
  import FileTree

  /** What a filename says about the item: display name, position, cover, untitled. */
  datatype FileName = FileName(name: string, order: int, cover: bool, untitled: bool)

  /**
   * The order a token gives: the int Atoi returns whether or not it also
   * reports an error (which is only logged), so 0 for a token that is not a
   * number and the int bound of its sign for one out of range, including a
   * token whose digit run passes 2^64-1 before a character that is not a
   * digit.
   */
  function OrderOf(token: string): int {
    AtoiValue(token)
  }

  /** The order of a number's decimal text is that number, clamped to the int range. */
  lemma OrderOfItoa(n: int)
    ensures OrderOf(Itoa(n)) == if n > MaxInt then MaxInt else if n < MinInt then MinInt else n
  {
    AtoiItoa(n);
  }

  /** A token whose digits overflow before anything else is read orders at the bound of its sign. */
  lemma OrderOfRangeFirst(d: string, rest: string)
    requires AllDigits(d) && DigitsValue(d) > MaxUint64
    ensures OrderOf(d + rest) == MaxInt && OrderOf("-" + (d + rest)) == MinInt
  {
    AtoiRangeFirst(d, rest);
  }

  /** The name with a leading cover marker `*` replaced by the order marker `_`. */
  function WithoutCoverMarker(filename: string): (f: string)
    ensures |f| == |filename|
  {
    if HasPrefix(filename, "*") then "_" + filename[1..] else filename
  }

  /** True iff auto-untitling is on and the name looks like a camera default. */
  predicate IsUntitled(name: string, autoUntitle: bool) {
    autoUntitle && (Contains(name, "dsc") || Contains(name, "DSC"))
  }

  /**
   * FileInfo: `*` marks a cover and is then treated as `_`; after a `_`
   * prefix every leading `_` is trimmed and the rest is split at the first
   * `_` into an order token and the name. `autoUntitle` is the
   * "auto-untitle" configuration flag.
   */
  function FileInfo(filename: string, autoUntitle: bool): (r: FileName)
    ensures r.cover <==> HasPrefix(filename, "*")
    ensures r.untitled <==> IsUntitled(r.name, autoUntitle)
    ensures r.name == filename || |r.name| < |filename|
  {
    var cover := HasPrefix(filename, "*");
    var f := WithoutCoverMarker(filename);
    var parts := if HasPrefix(f, "_") then SplitN2(TrimLeft(f, '_'), '_') else [f];
    var name := if |parts| == 2 then parts[1] else filename;
    var order := if |parts| == 2 then OrderOf(parts[0]) else 0;
    FileName(name, order, cover, IsUntitled(name, autoUntitle))
  }

  function Underscores(n: nat): (u: string)
    ensures |u| == n && forall i :: 0 <= i < n ==> u[i] == '_'
  {
    seq(n, _ => '_')
  }

  lemma UnderscoresCons(n: nat)
    ensures Underscores(n + 1) == "_" + Underscores(n)
  {
  }

  lemma TrimUnderscores(n: nat, rest: string)
    requires rest != [] && rest[0] != '_'
    ensures TrimLeft(Underscores(n) + rest, '_') == rest
  {
    var s := Underscores(n) + rest;
    var r := TrimLeft(s, '_');
    assert s[n] == rest[0];
    assert forall i :: 0 <= i < n ==> s[i] == '_';
    assert r != [] ==> r[0] == s[|s| - |r|];
    assert |r| == |rest|;
    assert r == s[n..] == rest;
  }

  /** Splitting "token_name" at its first `_` when the token has none. */
  lemma SplitToken(token: string, name: string)
    requires '_' !in token
    ensures SplitN2(token + "_" + name, '_') == [token, name]
  {
    var t := token + "_" + name;
    assert t[|token|] == '_';
    assert t[..|token|] == token;
    IndexOfUnique(t, '_', |token|);
    assert t[|token| + 1..] == name;
  }

  /**
   * Decoding a prefixed name: an optional cover star, underscores (at least
   * one unless the star stands in for them), an order token without `_`, a
   * separating `_` and the name. The order is whatever int Atoi returns for
   * the token; the name is everything after the separator.
   */
  lemma DecodePrefixed(filename: string, cover: bool, n: nat, token: string, name: string, autoUntitle: bool)
    requires filename == (if cover then "*" else "") + Underscores(n) + token + "_" + name
    requires cover || n >= 1
    requires token != [] && '_' !in token
    ensures FileInfo(filename, autoUntitle) == FileName(name, OrderOf(token), cover, IsUntitled(name, autoUntitle))
  {
    var t := token + "_" + name;
    var m := if cover then n + 1 else n;
    assert filename == (if cover then "*" else "") + Underscores(n) + t;
    assert HasPrefix(filename, "*") == cover by {
      assert filename[0] == (if cover then '*' else '_');
    }
    var f := WithoutCoverMarker(filename);
    if cover {
      assert filename == "*" + (Underscores(n) + t);
      assert filename[1..] == Underscores(n) + t;
      UnderscoresCons(n);
      ConcatAssoc("_", Underscores(n), t);
    } else {
      assert "" + Underscores(n) + t == Underscores(n) + t;
    }
    assert f == Underscores(m) + t;
    assert f[0] == '_';
    assert HasPrefix(f, "_");
    TrimUnderscores(m, t);
    SplitToken(token, name);
  }

  /**
   * When no separator follows the prefix (or there is no prefix at all) the
   * name is the filename unchanged, a cover star included, and the order is 0.
   */
  lemma DecodeUnsplit(filename: string, autoUntitle: bool)
    requires var f := WithoutCoverMarker(filename);
      !HasPrefix(f, "_") || '_' !in TrimLeft(f, '_')
    ensures FileInfo(filename, autoUntitle).name == filename
    ensures FileInfo(filename, autoUntitle).order == 0
  {
  }

  /** A one-digit token gives that digit's value as order. */
  lemma DigitOrder(d: char)
    requires IsDigit(d)
    ensures OrderOf([d]) == d as int - '0' as int
  {
    assert AllDigits([d]) && [d][..0] == [];
    assert DigitsValue([d]) == d as int - '0' as int;
    assert ParseDecimal([d]) == Some(DigitsValue([d]));
  }

  lemma UnderscoreOne()
    ensures Underscores(1) == "_"
  {
  }

  /** "_3_Sunset.jpg" decodes to "Sunset.jpg" at position 3. */
  lemma ExampleOrdered()
    ensures FileInfo("_3_Sunset.jpg", false) == FileName("Sunset.jpg", 3, false, false)
  {
    UnderscoreOne();
    DecodePrefixed("_3_Sunset.jpg", false, 1, "3", "Sunset.jpg", false);
    DigitOrder('3');
  }

  /** A cover star followed by the usual `_` prefix. */
  lemma ExampleCover()
    ensures FileInfo("*_2_Harbor.jpg", false) == FileName("Harbor.jpg", 2, true, false)
  {
    UnderscoreOne();
    DecodePrefixed("*_2_Harbor.jpg", true, 1, "2", "Harbor.jpg", false);
    DigitOrder('2');
  }

  /** A cover star stands in for the `_` prefix. */
  lemma ExampleCoverOnly()
    ensures FileInfo("*2_Harbor.jpg", false) == FileName("Harbor.jpg", 2, true, false)
  {
    assert Underscores(0) == "";
    DecodePrefixed("*2_Harbor.jpg", true, 0, "2", "Harbor.jpg", false);
    DigitOrder('2');
  }

  /** A non-numeric token still yields the name after the separator, at order 0. */
  lemma ExampleNonNumeric()
    ensures FileInfo("_x_Boat.jpg", false) == FileName("Boat.jpg", 0, false, false)
  {
    UnderscoreOne();
    DecodePrefixed("_x_Boat.jpg", false, 1, "x", "Boat.jpg", false);
    LetterOrder();
  }

  /** The token "x" is a syntax error, so its order is 0. */
  lemma LetterOrder()
    ensures OrderOf("x") == 0
  {
    assert ParseDecimal("x") == None;
    assert Unsigned("x") == "x" && LeadingDigits("x") == [];
  }

  /**
   * A prefixed name whose order token starts with digits above 2^64-1 orders
   * at MaxInt even when a letter follows them in the token, not at 0.
   */
  lemma FileInfoRangeFirst(n: nat, d: string, t: string, name: string, autoUntitle: bool)
    requires n >= 1 && AllDigits(d) && DigitsValue(d) > MaxUint64 && '_' !in t
    ensures FileInfo(Underscores(n) + (d + t) + "_" + name, autoUntitle).order == MaxInt
    ensures FileInfo(Underscores(n) + (d + t) + "_" + name, autoUntitle).name == name
  {
    var token := d + t;
    var f := Underscores(n) + token + "_" + name;
    DigitsThenNoSeparator(d, t);
    assert f == "" + Underscores(n) + token + "_" + name;
    DecodePrefixed(f, false, n, token, name, autoUntitle);
    OrderOfRangeFirst(d, t);
  }

  /** Digits followed by text without `_` form a token without `_`. */
  lemma DigitsThenNoSeparator(d: string, t: string)
    requires AllDigits(d) && d != [] && '_' !in t
    ensures d + t != [] && '_' !in d + t
  {
  }

  /** A star with no separator after it keeps the star in the decoded name. */
  lemma ExampleStarKept()
    ensures FileInfo("*Harbor.jpg", false) == FileName("*Harbor.jpg", 0, true, false)
  {
    UnderscoreOne();
    TrimUnderscores(1, "Harbor.jpg");
    assert WithoutCoverMarker("*Harbor.jpg") == Underscores(1) + "Harbor.jpg";
    NoSeparator("Harbor", ".jpg");
    DecodeUnsplit("*Harbor.jpg", false);
  }

  /** A name made of two pieces without `_` has none. */
  lemma NoSeparator(a: string, b: string)
    requires forall i :: 0 <= i < |a| ==> a[i] != '_'
    requires forall i :: 0 <= i < |b| ==> b[i] != '_'
    ensures '_' !in a + b
  {
  }

  // ---- responsive variants ---------------------------------------------

  /** image.Rectangle with its minimum at the origin: the image's width and height. */
  datatype Rect = Rect(maxX: nat, maxY: nat)

  /** One entry of the responsive source set. */
  datatype SrcImage = SrcImage(name: string, bounds: Rect, suffix: string, xVal: string, wVal: string)

  /** The full-size entry that always comes first. */
  function Original(baseName: string, extension: string, bounds: Rect): SrcImage {
    SrcImage(baseName + extension, bounds, "", "3x", NatToString(bounds.maxX) + "w")
  }

  /** fmt.Sprintf("_%d", n): the suffix of the variant with halving number n. */
  function SuffixOf(n: nat): string {
    "_" + NatToString(n)
  }

  function Pow2(k: nat): (p: nat)
    ensures p >= 1
  {
    if k == 0 then 1 else 2 * Pow2(k - 1)
  }

  /**
   * The entries the halving loop appends once it has already halved k times
   * and the bounds are `bounds`: the next one is halved again and carries the
   * suffix number 2^(k+1).
   */
  function Halvings(baseName: string, extension: string, bounds: Rect, k: nat): seq<SrcImage>
    decreases bounds.maxX
  {
    if bounds.maxX <= 100 then []
    else
      var b := Rect(bounds.maxX / 2, bounds.maxY / 2);
      var s := SuffixOf(Pow2(k + 1));
      [SrcImage(baseName + s + extension, b, s, "tbd", NatToString(b.maxX) + "w")]
        + Halvings(baseName, extension, b, k + 1)
  }

  /** The source set RespImages returns for an image with the given bounds. */
  function Variants(baseName: string, extension: string, bounds: Rect): seq<SrcImage> {
    [Original(baseName, extension, bounds)] + Halvings(baseName, extension, bounds, 0)
  }

  /** Paths of the files written for a source set. */
  function OutPaths(outDir: string, srcSet: seq<SrcImage>): (paths: seq<string>)
    ensures |paths| == |srcSet|
    ensures forall i :: 0 <= i < |srcSet| ==> paths[i] == outDir + "/" + srcSet[i].name
  {
    seq(|srcSet|, i requires 0 <= i < |srcSet| => outDir + "/" + srcSet[i].name)
  }

  lemma {:induction false} Pow2Increasing(i: nat, j: nat)
    requires i < j
    ensures Pow2(i) < Pow2(j)
    decreases j
  {
    if i < j - 1 {
      Pow2Increasing(i, j - 1);
    }
  }

  /** Middles between one prefix and one suffix are equal when the whole strings are. */
  lemma Unwrap(a: string, x: string, y: string, e: string)
    requires a + x + e == a + y + e
    ensures x == y
  {
    var s := a + x + e;
    assert |x| == |y|;
    assert x == s[|a|..|a| + |x|];
    assert y == (a + y + e)[|a|..|a| + |y|];
  }

  /** The variants' file names are pairwise distinct. */
  lemma VariantNamesDistinct(baseName: string, extension: string, bounds: Rect, i: nat, j: nat)
    requires i < j < |Variants(baseName, extension, bounds)|
    ensures Variants(baseName, extension, bounds)[i].name != Variants(baseName, extension, bounds)[j].name
  {
    HalvingsLength(baseName, extension, bounds, 0);
    VariantsAt(baseName, extension, bounds, i);
    VariantsAt(baseName, extension, bounds, j);
    var v := Variants(baseName, extension, bounds);
    if v[i].name == v[j].name {
      Unwrap(baseName, v[i].suffix, v[j].suffix, extension);
      assert i > 0;
      var si := SuffixOf(Pow2(i));
      var sj := SuffixOf(Pow2(j));
      assert si[1..] == NatToString(Pow2(i)) && sj[1..] == NatToString(Pow2(j));
      DigitsOfNatToString(Pow2(i));
      DigitsOfNatToString(Pow2(j));
      Pow2Increasing(i, j);
    }
  }

  /**
   * Every file RespImages writes is the variant's name inside outDir, and no
   * two variants of an image are written to the same file.
   */
  lemma OutPathsNamed(outDir: string, baseName: string, extension: string, bounds: Rect)
    requires FileTree.ValidName(baseName + extension)
    ensures var v := Variants(baseName, extension, bounds); var w := OutPaths(outDir, v);
      && (forall i :: 0 <= i < |w| ==> FileTree.PathOf(w[i]) == FileTree.PathOf(outDir) + [v[i].name])
      && (forall i, j :: 0 <= i < j < |w| ==> FileTree.PathOf(w[i]) != FileTree.PathOf(w[j]))
  {
    var v := Variants(baseName, extension, bounds);
    var w := OutPaths(outDir, v);
    forall i | 0 <= i < |w|
      ensures FileTree.PathOf(w[i]) == FileTree.PathOf(outDir) + [v[i].name]
    {
      VariantNameValid(baseName, extension, bounds, i);
      FileTree.PathJoin(outDir, v[i].name);
      FileTree.PathOfName(v[i].name);
    }
    forall i, j | 0 <= i < j < |w|
      ensures FileTree.PathOf(w[i]) != FileTree.PathOf(w[j])
    {
      VariantNamesDistinct(baseName, extension, bounds, i, j);
      assert FileTree.PathOf(w[i])[|FileTree.PathOf(outDir)|] == v[i].name;
    }
  }

  /** A variant's name is a single path component. */
  lemma VariantNameValid(baseName: string, extension: string, bounds: Rect, i: nat)
    requires FileTree.ValidName(baseName + extension)
    requires i < |Variants(baseName, extension, bounds)|
    ensures FileTree.ValidName(Variants(baseName, extension, bounds)[i].name)
  {
    HalvingsLength(baseName, extension, bounds, 0);
    VariantsAt(baseName, extension, bounds, i);
    var e := Variants(baseName, extension, bounds)[i];
    assert '/' !in baseName && '/' !in extension by {
      forall k | 0 <= k < |baseName| ensures baseName[k] != '/' { assert (baseName + extension)[k] == baseName[k]; }
      forall k | 0 <= k < |extension| ensures extension[k] != '/' { assert (baseName + extension)[|baseName| + k] == extension[k]; }
    }
    if i > 0 {
      var d := NatToString(Pow2(i));
      assert e.suffix == "_" + d;
      assert forall k :: 0 <= k < |d| ==> d[k] != '/';
    } else {
      assert e.name == baseName + extension;
    }
  }

  /**
   * RespImages: the original entry, then one entry per halving while the
   * width exceeds 100. `bounds` are the decoded bounds of the image (pixel
   * decoding and resizing are not modelled); `written` lists the files the
   * call creates, which happens only when `metaOnly` is false.
   */
  method RespImages(outDir: string, baseName: string, extension: string, bounds: Rect, metaOnly: bool)
    returns (srcSet: seq<SrcImage>, written: seq<string>)
    ensures srcSet == Variants(baseName, extension, bounds)
    ensures written == if metaOnly then [] else OutPaths(outDir, srcSet)
  {
    srcSet := [Original(baseName, extension, bounds)];
    written := [];
    if !metaOnly {
      written := written + [outDir + "/" + baseName + extension];
      assert outDir + "/" + baseName + extension == outDir + "/" + srcSet[0].name;
      assert written == OutPaths(outDir, srcSet);
    }
    var suffix: nat := 1;
    var b := bounds;
    ghost var k: nat := 0;
    while b.maxX > 100
      invariant suffix == Pow2(k)
      invariant srcSet + Halvings(baseName, extension, b, k) == Variants(baseName, extension, bounds)
      invariant written == if metaOnly then [] else OutPaths(outDir, srcSet)
      decreases b.maxX
    {
      ghost var old_b := b;
      suffix := suffix * 2;
      b := Rect(b.maxX / 2, b.maxY / 2);
      var src := SrcImage("", b, "_" + NatToString(suffix), "tbd", NatToString(b.maxX) + "w");
      src := src.(name := baseName + src.suffix + extension);
      HalvingsStep(baseName, extension, old_b, k, srcSet, src);
      OutPathsSnoc(outDir, srcSet, src);
      srcSet := srcSet + [src];
      if !metaOnly {
        written := written + [outDir + "/" + src.name];
      }
      k := k + 1;
    }
  }

  /** One more halving moves the next entry from the pending halvings to the source set. */
  lemma HalvingsStep(baseName: string, extension: string, b: Rect, k: nat, done: seq<SrcImage>, src: SrcImage)
    requires b.maxX > 100
    requires var h := Rect(b.maxX / 2, b.maxY / 2); var s := SuffixOf(Pow2(k + 1));
      src == SrcImage(baseName + s + extension, h, s, "tbd", NatToString(h.maxX) + "w")
    ensures done + Halvings(baseName, extension, b, k) ==
      (done + [src]) + Halvings(baseName, extension, Rect(b.maxX / 2, b.maxY / 2), k + 1)
  {
    ConcatAssoc(done, [src], Halvings(baseName, extension, Rect(b.maxX / 2, b.maxY / 2), k + 1));
  }

  lemma OutPathsSnoc(outDir: string, srcSet: seq<SrcImage>, src: SrcImage)
    ensures OutPaths(outDir, srcSet + [src]) == OutPaths(outDir, srcSet) + [outDir + "/" + src.name]
  {
  }

  /** `w` halved (integer division) k times. */
  function HalfN(w: nat, k: nat): nat {
    if k == 0 then w else HalfN(w / 2, k - 1)
  }

  /** Number of halvings the loop performs from width `w`. */
  function Steps(w: nat): nat
    decreases w
  {
    if w <= 100 then 0 else 1 + Steps(w / 2)
  }

  lemma {:induction false} HalvingsLength(baseName: string, extension: string, bounds: Rect, k: nat)
    ensures |Halvings(baseName, extension, bounds, k)| == Steps(bounds.maxX)
    decreases bounds.maxX
  {
    if bounds.maxX > 100 {
      HalvingsLength(baseName, extension, Rect(bounds.maxX / 2, bounds.maxY / 2), k + 1);
    }
  }

  /**
   * Entry j appended after k earlier halvings is the bounds halved j+1 more
   * times, with suffix number 2^(k+j+1).
   */
  lemma {:induction false} HalvingsAt(baseName: string, extension: string, bounds: Rect, k: nat, j: nat)
    requires j < Steps(bounds.maxX)
    ensures |Halvings(baseName, extension, bounds, k)| == Steps(bounds.maxX)
    ensures var e := Halvings(baseName, extension, bounds, k)[j];
      && e.bounds == Rect(HalfN(bounds.maxX, j + 1), HalfN(bounds.maxY, j + 1))
      && e.suffix == SuffixOf(Pow2(k + j + 1))
      && e.name == baseName + e.suffix + extension
      && e.xVal == "tbd"
      && e.wVal == NatToString(e.bounds.maxX) + "w"
    decreases bounds.maxX
  {
    HalvingsLength(baseName, extension, bounds, k);
    if j > 0 {
      HalvingsAt(baseName, extension, Rect(bounds.maxX / 2, bounds.maxY / 2), k + 1, j - 1);
    }
  }

  /**
   * The shape of the source set: the original first (suffix "", "3x"), then
   * entry k has width and height halved k times, suffix "_" + 2^k and the name
   * base + suffix + extension.
   */
  lemma VariantsAt(baseName: string, extension: string, bounds: Rect, k: nat)
    requires k < 1 + Steps(bounds.maxX)
    ensures |Variants(baseName, extension, bounds)| == 1 + Steps(bounds.maxX)
    ensures var e := Variants(baseName, extension, bounds)[k];
      && e.bounds == Rect(HalfN(bounds.maxX, k), HalfN(bounds.maxY, k))
      && e.suffix == (if k == 0 then "" else SuffixOf(Pow2(k)))
      && e.name == baseName + e.suffix + extension
      && e.xVal == (if k == 0 then "3x" else "tbd")
      && e.wVal == NatToString(e.bounds.maxX) + "w"
  {
    HalvingsLength(baseName, extension, bounds, 0);
    if k > 0 {
      HalvingsAt(baseName, extension, bounds, 0, k - 1);
    }
  }

  /**
   * Along the appended entries widths strictly decrease, all are below the
   * starting width, all but the last exceed 100 and the last is at most 100.
   */
  lemma {:induction false} HalvingsWidths(baseName: string, extension: string, bounds: Rect, k: nat)
    ensures var h := Halvings(baseName, extension, bounds, k);
      && (forall i :: 0 <= i < |h| ==> h[i].bounds.maxX < bounds.maxX)
      && (forall i, j :: 0 <= i < j < |h| ==> h[j].bounds.maxX < h[i].bounds.maxX)
      && (forall i :: 0 <= i < |h| - 1 ==> h[i].bounds.maxX > 100)
      && (h != [] ==> h[|h| - 1].bounds.maxX <= 100)
      && (h == [] <==> bounds.maxX <= 100)
    decreases bounds.maxX
  {
    if bounds.maxX > 100 {
      var b := Rect(bounds.maxX / 2, bounds.maxY / 2);
      HalvingsWidths(baseName, extension, b, k + 1);
      var h := Halvings(baseName, extension, bounds, k);
      var t := Halvings(baseName, extension, b, k + 1);
      assert h == [h[0]] + t;
      assert h[0].bounds == b;
      assert forall i :: 1 <= i < |h| ==> h[i] == t[i - 1];
      assert t != [] ==> b.maxX > 100;
    }
  }

  /**
   * Widths strictly decrease along the source set, every entry but the last is
   * wider than 100 pixels, and the last is at most 100 wide; a source set of
   * one entry means the image is at most 100 wide.
   */
  lemma VariantsDecrease(baseName: string, extension: string, bounds: Rect)
    ensures var v := Variants(baseName, extension, bounds);
      && v[0] == Original(baseName, extension, bounds)
      && (forall i, j :: 0 <= i < j < |v| ==> v[j].bounds.maxX < v[i].bounds.maxX)
      && (forall i :: 0 <= i < |v| - 1 ==> v[i].bounds.maxX > 100)
      && v[|v| - 1].bounds.maxX <= 100
      && (|v| == 1 <==> bounds.maxX <= 100)
  {
    var v := Variants(baseName, extension, bounds);
    var h := Halvings(baseName, extension, bounds, 0);
    HalvingsWidths(baseName, extension, bounds, 0);
    assert forall i :: 1 <= i < |v| ==> v[i] == h[i - 1];
  }

  /** A 500-pixel-wide image yields four entries: 500, 250, 125 and 62 wide. */
  lemma Width500(baseName: string, extension: string, height: nat)
    ensures var v := Variants(baseName, extension, Rect(500, height));
      && |v| == 4
      && v[0].bounds.maxX == 500 && v[1].bounds.maxX == 250
      && v[2].bounds.maxX == 125 && v[3].bounds.maxX == 62
      && v[0].suffix == "" && v[1].suffix == "_2" && v[2].suffix == "_4" && v[3].suffix == "_8"
  {
    var b := Rect(500, height);
    assert Steps(500) == 3;
    VariantsAt(baseName, extension, b, 1);
    VariantsAt(baseName, extension, b, 2);
    VariantsAt(baseName, extension, b, 3);
    assert Pow2(3) == 8;
    assert HalfN(500, 3) == 62;
  }
}
