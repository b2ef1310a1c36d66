/**
 * `Main` after the argument checks: build the catalog, and for each colour
 * in catalog order draw one circle per detected keypoint and record the
 * number of keypoints in `BlobsFound`; then build the summary title.
 *
 * Thresholding (`Cv2.InRange`) and blob detection (`SimpleBlobDetector`)
 * are not modelled: `detected[i]` stands for the keypoints the detector
 * returns on the mask of catalog colour `i`.
 */
module CountObjects {
  import opened CSharp
  import opened Catalog
  import opened Annotator
  import opened Summary

  /** The display colours of a list of colours, in order. */
  function DestColors(colors: seq<InterestingColor>): (ds: seq<Bgr>)
    ensures |ds| == |colors|
  {
    seq(|colors|, i requires 0 <= i < |colors| => colors[i].destColor)
  }

  /** `interestingColors.Select(ic => (ic.Name, ic.BlobsFound))`. */
  function Tallies(colors: seq<InterestingColor>): (ts: seq<Tally>)
    reads colors
    ensures |ts| == |colors|
  {
    seq(|colors|, i requires 0 <= i < |colors| reads colors => Tally(colors[i].name, colors[i].blobsFound))
  }

  /** What the title reports when colour `i` of the catalog found `|detected[i]|` blobs. */
  function CatalogTallies(detected: seq<seq<KeyPoint>>): (ts: seq<Tally>)
    requires |detected| == |InterestingColors()|
    ensures |ts| == |InterestingColors()|
  {
    seq(|detected|, i requires 0 <= i < |detected| => Tally(InterestingColors()[i].name, |detected[i]|))
  }

  /** The body of `foreach (var ic in interestingColors)`, given that colour's keypoints. */
  method ProcessColor(ic: InterestingColor, keypoints: seq<KeyPoint>, image: Image)
    modifies ic, image
    ensures ic.blobsFound == |keypoints|
    ensures image.markers == old(image.markers) + MarkersFor(keypoints, ic.destColor)
  {
    DrawKeypoints(image, keypoints, ic.destColor);
    ic.blobsFound := |keypoints|;
  }

  /**
   * The outer loop: afterwards every colour's count is the number of its
   * keypoints, and the image carries the circles of all colours in catalog
   * order after whatever it held before.
   */
  method ProcessColors(colors: array<InterestingColor>, detected: seq<seq<KeyPoint>>, image: Image)
    requires colors.Length == |detected| && Distinct(colors)
    modifies image, set i | 0 <= i < colors.Length :: colors[i]
    ensures forall i :: 0 <= i < colors.Length ==> colors[i].blobsFound == |detected[i]|
    ensures image.markers == old(image.markers) + AllMarkers(DestColors(colors[..]), detected)
  {
    ghost var dests := DestColors(colors[..]);
    for i := 0 to colors.Length
      invariant forall k :: 0 <= k < i ==> colors[k].blobsFound == |detected[k]|
      invariant image.markers == old(image.markers) + AllMarkers(dests[..i], detected[..i])
    {
      ProcessColor(colors[i], detected[i], image);
      assert dests[..i + 1][..i] == dests[..i];
      assert detected[..i + 1][..i] == detected[..i];
    }
    assert dests[..colors.Length] == dests;
    assert detected[..colors.Length] == detected;
  }

  /** The catalog's display colours. */
  function CatalogDests(): (ds: seq<Bgr>)
    ensures |ds| == |InterestingColors()|
  {
    seq(|InterestingColors()|, i requires 0 <= i < |InterestingColors()| => InterestingColors()[i].dest)
  }

  /**
   * From the catalog to the title: the circles drawn are those of every
   * detected keypoint, colour by colour, and the title reports each
   * catalog colour's number of keypoints.
   */
  method Run(image: Image, detected: seq<seq<KeyPoint>>) returns (title: string)
    requires |detected| == |InterestingColors()|
    modifies image
    ensures image.markers == old(image.markers) + AllMarkers(CatalogDests(), detected)
    ensures title == Title(CatalogTallies(detected))
  {
    var colors := NewInterestingColors();
    assert DestColors(colors[..]) == CatalogDests();
    ProcessColors(colors, detected, image);
    title := Title(Tallies(colors[..]));
    assert Tallies(colors[..]) == CatalogTallies(detected);
  }

  /** The catalog's title always reads back to the catalog's names and counts, and holds one comma. */
  lemma CatalogTitle(detected: seq<seq<KeyPoint>>)
    requires |detected| == |InterestingColors()|
    ensures ParseTitle(Title(CatalogTallies(detected))) == Some(CatalogTallies(detected))
    ensures multiset(Title(CatalogTallies(detected)))[','] == 1
  {
    CatalogNamesPlain();
    TitleRoundTrip(CatalogTallies(detected));
    TitleCommaCount(CatalogTallies(detected));
  }

  /** One keypoint per colour gives the title "DarkB=1,Light=1" and one circle per colour. */
  lemma OneBlobEach(a: KeyPoint, b: KeyPoint)
    ensures Title(CatalogTallies([[a], [b]])) == "DarkB=1,Light=1"
    ensures AllMarkers(CatalogDests(), [[a], [b]])
      == [MarkerFor(a, Bgr(255, 0, 0)), MarkerFor(b, Bgr(0, 255, 0))]
  {
    assert CatalogTallies([[a], [b]]) == [Tally("DarkB", 1), Tally("Light", 1)];
    ExampleTitle();
    var ds := CatalogDests();
    assert ds == [Bgr(255, 0, 0), Bgr(0, 255, 0)];
    assert [[a], [b]][..1] == [[a]] && [[a]][..0] == [];
    assert AllMarkers(ds[..1], [[a]]) == MarkersFor([a], Bgr(255, 0, 0));
    assert MarkersFor([a], Bgr(255, 0, 0)) == [MarkerFor(a, Bgr(255, 0, 0))];
    assert MarkersFor([b], Bgr(0, 255, 0)) == [MarkerFor(b, Bgr(0, 255, 0))];
  }
}
