/**
 * The `InterestingColor` record and the two-entry catalog `Main` builds:
 * a name, a lower and an upper HSV bound (both made by `GetOpenCvHsvColor`),
 * a display colour, and the mutable `BlobsFound` count.
 */
module Catalog {
  import opened CSharp
  import opened HsvConversion

  /** An OpenCV `Scalar` in the image's BGR channel order (its fourth value is always 0 here). */
  datatype Bgr = Bgr(blue: int, green: int, red: int)

  /** The immutable part of an `InterestingColor`. */
  datatype ColorRange = ColorRange(name: string, lower: HsvColor, upper: HsvColor, dest: Bgr)

  /** `InterestingColor`: its positional members are fixed, `BlobsFound` is set later and starts at 0. */
  class InterestingColor {
    const name: string
    const lowerHsv: HsvColor
    const upperHsv: HsvColor
    const destColor: Bgr
    var blobsFound: int

    constructor (name: string, lowerHsv: HsvColor, upperHsv: HsvColor, destColor: Bgr)
      ensures this.name == name && this.lowerHsv == lowerHsv && this.upperHsv == upperHsv
      ensures this.destColor == destColor && blobsFound == 0
    {
      this.name := name;
      this.lowerHsv := lowerHsv;
      this.upperHsv := upperHsv;
      this.destColor := destColor;
      blobsFound := 0;
    }

    function Range(): (r: ColorRange) {
      ColorRange(name, lowerHsv, upperHsv, destColor)
    }
  }

  /** The catalog as the source writes it, in standard HSV units. */
  function InterestingColors(): (cs: seq<ColorRange>) {
    [ ColorRange("DarkB", GetOpenCvHsvColor(0, 20, 0), GetOpenCvHsvColor(360, 100, 35), Bgr(255, 0, 0)),
      ColorRange("Light", GetOpenCvHsvColor(20, 40, 20), GetOpenCvHsvColor(55, 100, 80), Bgr(0, 255, 0)) ]
  }

  /** The bounds the catalog's conversions produce. */
  lemma CatalogBounds()
    ensures |InterestingColors()| == 2
    ensures InterestingColors()[0].name == "DarkB"
      && InterestingColors()[0].lower == HsvColor(0, 51, 0) && InterestingColors()[0].upper == HsvColor(255, 255, 89)
    ensures InterestingColors()[1].name == "Light"
      && InterestingColors()[1].lower == HsvColor(14, 102, 51) && InterestingColors()[1].upper == HsvColor(38, 255, 204)
  {
  }

  /** Every catalog entry's lower bound is at most its upper bound on every channel. */
  lemma CatalogRangesOrdered()
    ensures forall i :: 0 <= i < |InterestingColors()| ==> ChannelsLessEq(InterestingColors()[i].lower, InterestingColors()[i].upper)
  {
    ConvertMonotone(0, 20, 0, 360, 100, 35);
    ConvertMonotone(20, 40, 20, 55, 100, 80);
  }

  /** The names that the summary title can be read back with: no `,` and no `=` in any of them. */
  lemma CatalogNamesPlain()
    ensures forall i :: 0 <= i < |InterestingColors()| ==> ',' !in InterestingColors()[i].name && '=' !in InterestingColors()[i].name
    ensures InterestingColors()[0].name != InterestingColors()[1].name
  {
  }

  predicate Distinct(colors: array<InterestingColor>)
    reads colors
  {
    forall i, j :: 0 <= i < j < colors.Length ==> colors[i] != colors[j]
  }

  /** `new InterestingColor[] { ... }`: one fresh object per catalog entry, each with no blobs counted yet. */
  method NewInterestingColors() returns (colors: array<InterestingColor>)
    ensures fresh(colors) && colors.Length == |InterestingColors()| && Distinct(colors)
    ensures forall i :: 0 <= i < colors.Length ==>
      fresh(colors[i]) && colors[i].Range() == InterestingColors()[i] && colors[i].blobsFound == 0
  {
    var c := InterestingColors();
    var darkB := new InterestingColor(c[0].name, c[0].lower, c[0].upper, c[0].dest);
    var light := new InterestingColor(c[1].name, c[1].lower, c[1].upper, c[1].dest);
    colors := new InterestingColor[2][darkB, light];
  }
}
