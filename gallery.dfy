/**
 * The gallery page.  The listing of the upload directory drives it: every
 * entry whose name ends in ".jpg" is shown, in listing order, with its tags
 * from the metadata document (none when the document does not know it).
 * Entries of the document without a file are never shown.
 */
module Gallery {
  import opened FileNames
  import opened Metadata

  /** One image on the gallery page. */
  datatype ImageRecord = ImageRecord(filename: FileName, tags: seq<Tag>)

  /** The gallery for directory `listing` and document `doc`. */
  function GalleryOf(listing: seq<FileName>, doc: Document): (r: seq<ImageRecord>)
    ensures |r| <= |listing|
    ensures forall k :: 0 <= k < |r| ==>
      IsJpegName(r[k].filename) && r[k].tags == TagsOf(doc, r[k].filename)
  {
    if listing == [] then []
    else
      var front := listing[..|listing| - 1];
      var last := listing[|listing| - 1];
      assert listing == front + [last];
      var shown := GalleryOf(front, doc);
      if IsJpegName(last) then
        var r := shown + [ImageRecord(last, TagsOf(doc, last))];
        r
      else shown
  }

  /** `index`: walk the directory listing and collect what the page shows. */
  method ListGallery(listing: seq<FileName>, doc: Document) returns (images: seq<ImageRecord>)
    ensures images == GalleryOf(listing, doc)
  {
    images := [];
    var i := 0;
    while i < |listing|
      invariant 0 <= i <= |listing|
      invariant images == GalleryOf(listing[..i], doc)
    {
      var filename := listing[i];
      assert listing[..i + 1][..i] == listing[..i];
      if EndsWith(filename, JpegSuffix) {
        var tags := if filename in doc then doc[filename] else [];
        images := images + [ImageRecord(filename, tags)];
      }
      i := i + 1;
    }
    assert listing[..i] == listing;
  }

  /** The positions in `listing` of the entries the gallery shows. */
  function ShownPositions(listing: seq<FileName>): (p: seq<nat>)
    ensures |p| <= |listing|
    ensures forall k :: 0 <= k < |p| ==> p[k] < |listing| && IsJpegName(listing[p[k]])
  {
    if listing == [] then []
    else
      var n := |listing| - 1;
      var p := ShownPositions(listing[..n]);
      assert forall k :: 0 <= k < |p| ==> listing[..n][p[k]] == listing[p[k]];
      if IsJpegName(listing[n]) then p + [n] else p
  }

  /** The k-th record shows the entry at the k-th shown position. */
  lemma {:induction false} GalleryAtShownPositions(listing: seq<FileName>, doc: Document)
    ensures |GalleryOf(listing, doc)| == |ShownPositions(listing)|
    ensures forall k :: 0 <= k < |ShownPositions(listing)| ==>
      GalleryOf(listing, doc)[k].filename == listing[ShownPositions(listing)[k]]
  {
    if listing != [] {
      var n := |listing| - 1;
      var front := listing[..n];
      assert listing == front + [listing[n]];
      GalleryAtShownPositions(front, doc);
      var p, r := ShownPositions(listing), GalleryOf(listing, doc);
      var p0, r0 := ShownPositions(front), GalleryOf(front, doc);
      forall k | 0 <= k < |p|
        ensures r[k].filename == listing[p[k]]
      {
        if k < |p0| {
          assert p[k] == p0[k] && r[k] == r0[k];
          assert front[p0[k]] == listing[p0[k]];
        }
      }
    }
  }

  /** Shown positions strictly increase. */
  lemma {:induction false} ShownPositionsIncrease(listing: seq<FileName>)
    ensures forall k, l :: 0 <= k < l < |ShownPositions(listing)| ==>
      ShownPositions(listing)[k] < ShownPositions(listing)[l]
  {
    if listing != [] {
      var n := |listing| - 1;
      ShownPositionsIncrease(listing[..n]);
    }
  }

  /** Every ".jpg" entry of the listing is at a shown position. */
  lemma {:induction false} ShownPositionsCoverJpegs(listing: seq<FileName>)
    ensures forall j :: 0 <= j < |listing| && IsJpegName(listing[j]) ==> j in ShownPositions(listing)
  {
    if listing != [] {
      var n := |listing| - 1;
      var front := listing[..n];
      ShownPositionsCoverJpegs(front);
      forall j | 0 <= j < n && IsJpegName(listing[j])
        ensures j in ShownPositions(listing)
      {
        assert front[j] == listing[j];
      }
    }
  }

  /**
   * The gallery lists the ".jpg" entries of the directory in the order of
   * the listing: `idx` gives, for each shown image, its position in the
   * listing; the positions increase, and every ".jpg" position is among them.
   */
  lemma GalleryKeepsListingOrder(listing: seq<FileName>, doc: Document)
    returns (idx: seq<nat>)
    ensures |idx| == |GalleryOf(listing, doc)|
    ensures forall k :: 0 <= k < |idx| ==>
      idx[k] < |listing| && listing[idx[k]] == GalleryOf(listing, doc)[k].filename
    ensures forall k, l :: 0 <= k < l < |idx| ==> idx[k] < idx[l]
    ensures forall j :: 0 <= j < |listing| && IsJpegName(listing[j]) ==> j in idx
  {
    idx := ShownPositions(listing);
    GalleryAtShownPositions(listing, doc);
    ShownPositionsIncrease(listing);
    ShownPositionsCoverJpegs(listing);
  }

  /** A name missing from the directory is never shown, whatever the document holds. */
  lemma GalleryHidesMissingFiles(listing: seq<FileName>, doc: Document, f: FileName)
    requires f !in listing
    ensures forall k :: 0 <= k < |GalleryOf(listing, doc)| ==> GalleryOf(listing, doc)[k].filename != f
  {
  }

  /**
   * After an upload stored under `Normalize(name)` has written its file, a
   * directory listing without repeated names shows that image exactly once,
   * with no tags.
   */
  lemma GalleryAfterUpload(listing: seq<FileName>, doc: Document, name: string)
    requires Normalize(name) in listing
    requires forall i, j :: 0 <= i < j < |listing| ==> listing[i] != listing[j]
    ensures var r := GalleryOf(listing, WithEmptyEntry(doc, Normalize(name)));
      exists k :: 0 <= k < |r| && r[k] == ImageRecord(Normalize(name), []) &&
        forall l :: 0 <= l < |r| && l != k ==> r[l].filename != Normalize(name)
  {
    var f := Normalize(name);
    var d := WithEmptyEntry(doc, f);
    var r := GalleryOf(listing, d);
    var idx := GalleryKeepsListingOrder(listing, d);
    var k :| 0 <= k < |r| && r[k].filename == f;
    forall l | 0 <= l < |r| && l != k
      ensures r[l].filename != f
    {
      if k < l {
        assert idx[k] < idx[l];
      } else {
        assert idx[l] < idx[k];
      }
    }
  }
}
