/**
 * Drawing the detections: every keypoint the blob detector reports becomes
 * one `Cv2.Circle` call on the shared output image. The image is modelled by
 * the list of circles drawn on it, in drawing order, not by its pixels.
 */
module Annotator {
  import opened CSharp
  import opened Catalog

  const MarkerRadius: int := 10
  const MarkerThickness: int := 1

  /** A detected blob: only its floating-point centre `Pt` is used. */
  datatype KeyPoint = KeyPoint(x: real, y: real)

  datatype Point = Point(x: int, y: int)

  /** The parameters of one `Cv2.Circle` call. */
  datatype Marker = Marker(center: Point, radius: int, color: Bgr, thickness: int)

  /** The image `Main` loads and then draws on in place. */
  class Image {
    var markers: seq<Marker>

    constructor ()
      ensures markers == []
    {
      markers := [];
    }

    /** `Cv2.Circle(image, centerX, centerY, radius, color, thickness)`. */
    method Circle(centerX: int, centerY: int, radius: int, color: Bgr, thickness: int)
      modifies this
      ensures markers == old(markers) + [Marker(Point(centerX, centerY), radius, color, thickness)]
    {
      markers := markers + [Marker(Point(centerX, centerY), radius, color, thickness)];
    }
  }

  /** The circle drawn for `kp`: centred on its coordinates truncated toward zero, radius 10, thickness 1. */
  function MarkerFor(kp: KeyPoint, color: Bgr): (m: Marker)
    ensures m.radius == 10 && m.thickness == 1 && m.color == color
    ensures kp.x >= 0.0 ==> m.center.x as real <= kp.x < m.center.x as real + 1.0
    ensures kp.y >= 0.0 ==> m.center.y as real <= kp.y < m.center.y as real + 1.0
    ensures kp.x < 0.0 ==> m.center.x as real - 1.0 < kp.x <= m.center.x as real
    ensures kp.y < 0.0 ==> m.center.y as real - 1.0 < kp.y <= m.center.y as real
  {
    Marker(Point(CastToInt(kp.x), CastToInt(kp.y)), MarkerRadius, color, MarkerThickness)
  }

  /** Inside the image (non-negative coordinates) truncation is the floor. */
  lemma MarkerCenterIsFloor(kp: KeyPoint, color: Bgr)
    requires kp.x >= 0.0 && kp.y >= 0.0
    ensures MarkerFor(kp, color).center == Point(kp.x.Floor, kp.y.Floor)
  {
  }

  /** The circles for one colour's keypoints, in keypoint order. */
  function MarkersFor(kps: seq<KeyPoint>, color: Bgr): (ms: seq<Marker>) {
    seq(|kps|, i requires 0 <= i < |kps| => MarkerFor(kps[i], color))
  }

  /** The inner `foreach (var kp in keypoints)`: one circle per keypoint, appended in order. */
  method DrawKeypoints(image: Image, kps: seq<KeyPoint>, color: Bgr)
    modifies image
    ensures image.markers == old(image.markers) + MarkersFor(kps, color)
  {
    for k := 0 to |kps|
      invariant image.markers == old(image.markers) + MarkersFor(kps[..k], color)
    {
      var m := MarkerFor(kps[k], color);
      image.Circle(CastToInt(kps[k].x), CastToInt(kps[k].y), MarkerRadius, color, MarkerThickness);
      assert MarkersFor(kps[..k + 1], color) == MarkersFor(kps[..k], color) + [m];
    }
    assert kps[..|kps|] == kps;
  }

  /** The circles of all colours, colour after colour: what the outer loop draws. */
  function AllMarkers(dests: seq<Bgr>, kpss: seq<seq<KeyPoint>>): (ms: seq<Marker>)
    requires |dests| == |kpss|
  {
    if kpss == [] then []
    else
      var n := |kpss| - 1;
      AllMarkers(dests[..n], kpss[..n]) + MarkersFor(kpss[n], dests[n])
  }

  /** The number of keypoints over all colours. */
  function TotalCount(kpss: seq<seq<KeyPoint>>): (n: nat) {
    if kpss == [] then 0 else TotalCount(kpss[..|kpss| - 1]) + |kpss[|kpss| - 1]|
  }

  /** One circle per keypoint, over all colours. */
  lemma {:induction false} AllMarkersLength(dests: seq<Bgr>, kpss: seq<seq<KeyPoint>>)
    requires |dests| == |kpss|
    ensures |AllMarkers(dests, kpss)| == TotalCount(kpss)
  {
    if kpss != [] {
      var n := |kpss| - 1;
      AllMarkersLength(dests[..n], kpss[..n]);
    }
  }

  /**
   * The `j`-th circle of colour `i` sits after all circles of the colours
   * before it, and is the circle for that colour's `j`-th keypoint in that
   * colour's display colour.
   */
  lemma {:induction false} AllMarkersAt(dests: seq<Bgr>, kpss: seq<seq<KeyPoint>>, i: nat, j: nat)
    requires |dests| == |kpss| && i < |kpss| && j < |kpss[i]|
    ensures TotalCount(kpss[..i]) + j < |AllMarkers(dests, kpss)|
    ensures AllMarkers(dests, kpss)[TotalCount(kpss[..i]) + j] == MarkerFor(kpss[i][j], dests[i])
  {
    var n := |kpss| - 1;
    var front := AllMarkers(dests[..n], kpss[..n]);
    AllMarkersLength(dests[..n], kpss[..n]);
    if i == n {
      assert kpss[..i] == kpss[..n];
    } else {
      AllMarkersAt(dests[..n], kpss[..n], i, j);
      assert kpss[..n][..i] == kpss[..i];
    }
  }
}
