/**
 * build/render.go: the values renderDetail and renderGallery hand to their
 * templates. Template execution is not part of this model; what is kept is
 * which neighbours and links are chosen.
 */
module Render {
  import BuildInfo

  type PrintInfo = BuildInfo.PrintInfo
  type NavInfo = BuildInfo.NavInfo

  /** A neighbour link of a detail page: an item, or the number 0 when there is none. */
  datatype Neighbour = Zero | Item(info: PrintInfo)

  /** The map renderDetail fills, as a record. */
  datatype Detail = Detail(collection: string, collections: seq<NavInfo>, previous: Neighbour,
                           next: Neighbour, image: PrintInfo)

  /** The map renderGallery fills, as a record. */
  datatype Gallery = Gallery(collection: string, collections: seq<NavInfo>, images: seq<PrintInfo>,
                             next: string, previous: string, gallery: bool)

  /** The first index whose file name matches, or 0 when none does. */
  function MatchOf(items: seq<PrintInfo>, filename: string): (m: nat)
    ensures items != [] ==> m < |items|
    ensures (exists i :: 0 <= i < |items| && items[i].filename == filename) ==>
      items[m].filename == filename && forall j :: 0 <= j < m ==> items[j].filename != filename
    ensures (forall i :: 0 <= i < |items| ==> items[i].filename != filename) ==> m == 0
    decreases |items|
  {
    if items == [] then 0
    else if items[0].filename == filename then 0
    else
      var r := MatchOf(items[1..], filename);
      if exists i :: 0 <= i < |items| - 1 && items[1..][i].filename == filename then r + 1 else 0
  }

  /** renderDetail's search loop: stop at the first matching file name. */
  method MatchIndex(items: seq<PrintInfo>, filename: string) returns (matchIndex: nat)
    ensures matchIndex == MatchOf(items, filename)
  {
    matchIndex := 0;
    var i := 0;
    while i < |items|
      invariant 0 <= i <= |items|
      invariant forall j :: 0 <= j < i ==> items[j].filename != filename
    {
      if items[i].filename == filename {
        matchIndex := i;
        MatchFirst(items, filename, i);
        return;
      }
      i := i + 1;
    }
    MatchNone(items, filename);
  }

  lemma MatchFirst(items: seq<PrintInfo>, filename: string, i: nat)
    requires i < |items| && items[i].filename == filename
    requires forall j :: 0 <= j < i ==> items[j].filename != filename
    ensures MatchOf(items, filename) == i
  {
    var m := MatchOf(items, filename);
    assert items[m].filename == filename;
    assert !(m < i) && !(i < m);
  }

  lemma MatchNone(items: seq<PrintInfo>, filename: string)
    requires forall j :: 0 <= j < |items| ==> items[j].filename != filename
    ensures MatchOf(items, filename) == 0
  {
  }

  /** The wrap-around neighbours of index m among n positions, modulo n. */
  lemma WrapIndices(m: int, n: int)
    requires 1 < n && 0 <= m < n
    ensures (m + n - 1) % n == if m > 0 then m - 1 else n - 1
    ensures (m + 1) % n == if m < n - 1 then m + 1 else 0
  {
    WrapPrevious(m, n);
    WrapNext(m, n);
  }

  lemma WrapPrevious(m: int, n: int)
    requires 1 < n && 0 <= m < n
    ensures (m + n - 1) % n == if m > 0 then m - 1 else n - 1
  {
    if m > 0 {
      ModAboveOne(m - 1, n);
    } else {
      ModBelow(n - 1, n);
    }
  }

  lemma WrapNext(m: int, n: int)
    requires 1 < n && 0 <= m < n
    ensures (m + 1) % n == if m < n - 1 then m + 1 else 0
  {
    if m < n - 1 {
      ModBelow(m + 1, n);
    } else {
      ModAboveOne(0, n);
    }
  }

  lemma ModBelow(r: int, n: int)
    requires 0 <= r < n
    ensures r % n == r
  {
  }

  lemma ModAboveOne(r: int, n: int)
    requires 0 <= r < n
    ensures (n + r) % n == r
  {
  }

  /** The previous and next items of the page at index m. */
  function PreviousOf(items: seq<PrintInfo>, m: nat): Neighbour
    requires m < |items|
  {
    if m > 0 then Item(items[m - 1]) else Item(items[|items| - 1])
  }

  function NextOf(items: seq<PrintInfo>, m: nat): Neighbour
    requires m < |items|
  {
    if m < |items| - 1 then Item(items[m + 1]) else Item(items[0])
  }

  /** renderDetail's context. */
  function DetailOf(collectionName: string, collections: seq<NavInfo>, info: PrintInfo,
                    collectionInfo: seq<PrintInfo>): Detail {
    if |collectionInfo| > 1 then
      var m := MatchOf(collectionInfo, info.filename);
      Detail(collectionName, collections, PreviousOf(collectionInfo, m), NextOf(collectionInfo, m), info)
    else Detail(collectionName, collections, Zero, Zero, info)
  }

  /** renderDetail up to the template: the search loop, then the neighbour choices. */
  method RenderDetail(collectionName: string, collections: seq<NavInfo>, info: PrintInfo,
                      collectionInfo: seq<PrintInfo>) returns (details: Detail)
    ensures details == DetailOf(collectionName, collections, info, collectionInfo)
  {
    var previous, next := Zero, Zero;
    if |collectionInfo| > 1 {
      var matchIndex := MatchIndex(collectionInfo, info.filename);
      if matchIndex > 0 {
        previous := Item(collectionInfo[matchIndex - 1]);
      } else {
        previous := Item(collectionInfo[|collectionInfo| - 1]);
      }
      if matchIndex < |collectionInfo| - 1 {
        next := Item(collectionInfo[matchIndex + 1]);
      } else {
        next := Item(collectionInfo[0]);
      }
    }
    details := Detail(collectionName, collections, previous, next, info);
  }

  /** The page always shows `info` under `collectionName`; with one item or none both neighbours are 0. */
  lemma DetailFields(collectionName: string, collections: seq<NavInfo>, info: PrintInfo,
                     collectionInfo: seq<PrintInfo>)
    ensures var d := DetailOf(collectionName, collections, info, collectionInfo);
      d.collection == collectionName && d.collections == collections && d.image == info &&
      (|collectionInfo| <= 1 <==> d.previous == Zero) && (|collectionInfo| <= 1 <==> d.next == Zero)
  {
  }

  /**
   * With more than one item the neighbours wrap around: previous is the item
   * before the match modulo the length, next the one after.
   */
  lemma DetailNeighbours(collectionName: string, collections: seq<NavInfo>, info: PrintInfo,
                         collectionInfo: seq<PrintInfo>, m: nat)
    requires |collectionInfo| > 1 && m == MatchOf(collectionInfo, info.filename)
    ensures m < |collectionInfo|
    ensures DetailOf(collectionName, collections, info, collectionInfo).previous
      == Item(collectionInfo[(m + |collectionInfo| - 1) % |collectionInfo|])
    ensures DetailOf(collectionName, collections, info, collectionInfo).next
      == Item(collectionInfo[(m + 1) % |collectionInfo|])
  {
    WrapIndices(m, |collectionInfo|);
  }

  /** With distinct file names, the page of item i has items i-1 and i+1 around it, wrapping at the ends. */
  lemma DetailOfItem(collectionName: string, collections: seq<NavInfo>, items: seq<PrintInfo>, i: nat)
    requires |items| > 1 && i < |items|
    requires forall j, k :: 0 <= j < k < |items| ==> items[j].filename != items[k].filename
    ensures var d := DetailOf(collectionName, collections, items[i], items); var n := |items|;
      d.previous == Item(items[(i + n - 1) % n]) && d.next == Item(items[(i + 1) % n])
  {
    MatchFirst(items, items[i].filename, i);
    DetailNeighbours(collectionName, collections, items[i], items, i);
  }

  // ---- gallery links --------------------------------------------------

  /** The link to a neighbouring collection: none for the root collection. */
  function LinkTo(name: string, root: string): string {
    if name != root then "/" + name else ""
  }

  /**
   * renderGallery's context. `collIndex` is the caller's index into
   * `collections`; Go indexes out of range unless -1 <= collIndex <= |collections|.
   */
  function GalleryOf(collectionName: string, collections: seq<NavInfo>, images: seq<PrintInfo>,
                     collIndex: int, root: string): Gallery
    requires |collections| > 1 ==> -1 <= collIndex <= |collections|
  {
    var n := |collections|;
    var previous :=
      if n > 1 then (if collIndex > 0 then LinkTo(collections[collIndex - 1].name, root) else LinkTo(collections[n - 1].name, root))
      else if collectionName != root then "/" + collectionName else "";
    var next :=
      if n > 1 then (if collIndex < n - 1 then LinkTo(collections[collIndex + 1].name, root) else LinkTo(collections[0].name, root))
      else if collectionName != root then "/" + collectionName else "";
    Gallery(collectionName, collections, images, next, previous, true)
  }

  /**
   * With more than one collection the links wrap around to the neighbours
   * of collIndex and are empty for the root collection; with one or none both
   * links point at the collection itself unless it is the root. The flag is
   * set and the images are passed unchanged.
   */
  lemma GalleryLinks(collectionName: string, collections: seq<NavInfo>, images: seq<PrintInfo>,
                     collIndex: int, root: string)
    requires 0 <= collIndex < |collections| || |collections| <= 1
    ensures var g := GalleryOf(collectionName, collections, images, collIndex, root); var n := |collections|;
      g.gallery && g.images == images && g.collection == collectionName && g.collections == collections &&
      (n > 1 ==> g.previous == LinkTo(collections[(collIndex + n - 1) % n].name, root) &&
                 g.next == LinkTo(collections[(collIndex + 1) % n].name, root)) &&
      (n <= 1 ==> g.previous == g.next == LinkTo(collectionName, root))
  {
    var n := |collections|;
    if n > 1 {
      WrapIndices(collIndex, n);
    }
  }

  /** A link never leads to the root collection's own page: it is empty or names a non-root collection. */
  lemma GallerySkipsRoot(collectionName: string, collections: seq<NavInfo>, images: seq<PrintInfo>,
                         collIndex: int, root: string)
    requires |collections| > 1 ==> -1 <= collIndex <= |collections|
    ensures var g := GalleryOf(collectionName, collections, images, collIndex, root);
      (g.next == "" || exists x :: x != root && g.next == "/" + x) &&
      (g.previous == "" || exists x :: x != root && g.previous == "/" + x)
  {
  }
}
