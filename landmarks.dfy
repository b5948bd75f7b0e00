/**
 * What `_extract_landmarks_from_frame` makes of one detection result: a
 * dictionary numbering the first face's landmarks "1".."n", each mapped to
 * its pixel position `[x * width, y * height]`.
 */
module Landmarks {
  import opened Decimal
  import opened NumberedMaps

  /** A detector landmark in normalised image coordinates (z is depth; the tracker ignores it). */
  datatype Landmark = Landmark(x: real, y: real, z: real)

  /** One face: its landmarks in the detector's fixed anatomical order. */
  type Face = seq<Landmark>

  /** The detector's answer for one image: zero or more faces. */
  datatype DetectionResult = DetectionResult(faceLandmarks: seq<Face>)

  /** The two-element list `[x, y]` stored for one landmark. */
  type Coordinates = seq<real>

  /** The per-frame dictionary: landmark number (as a string) to coordinates. */
  type LandmarkDict = map<string, Coordinates>

  /**
   * A normalised coordinate times an image dimension. The source multiplies
   * floats; only the fact that each axis goes through this product with the
   * right dimension is claimed about it.
   */
  function Scale(v: real, dim: nat): real {
    v * dim as real
  }

  /** The stored pair for a landmark in an image `h` pixels high and `w` wide. */
  function PixelPair(l: Landmark, h: nat, w: nat): Coordinates {
    [Scale(l.x, w), Scale(l.y, h)]
  }

  function PixelPairs(face: Face, h: nat, w: nat): seq<Coordinates> {
    seq(|face|, i requires 0 <= i < |face| => PixelPair(face[i], h, w))
  }

  /** `str(i + 1)`: the key of the landmark at 0-based position `i`. */
  function LandmarkKey(i: nat): (k: string)
    ensures Canonical(k) && ParseDecimal(k) == i + 1
  {
    ParseDecimalString(i + 1);
    assert Key("", i + 1) == DecimalString(i + 1);
    Key("", i + 1)
  }

  /** The dictionary the loop over one face's landmarks fills. */
  function LandmarksDict(face: Face, h: nat, w: nat): LandmarkDict {
    Numbered("", PixelPairs(face, h, w))
  }

  /** The whole extraction: `{}` without a face, otherwise the first face's dictionary. */
  function Extraction(detection: DetectionResult, h: nat, w: nat): (d: LandmarkDict)
    ensures |d| == if |detection.faceLandmarks| == 0 then 0 else |detection.faceLandmarks[0]|
  {
    if |detection.faceLandmarks| == 0 then map[]
    else
      LandmarksDictSize(detection.faceLandmarks[0], h, w);
      LandmarksDict(detection.faceLandmarks[0], h, w)
  }

  /** A detection that leaves a non-empty dictionary: a first face with at least one landmark. */
  predicate HasFace(detection: DetectionResult) {
    |detection.faceLandmarks| > 0 && |detection.faceLandmarks[0]| > 0
  }

  /** One more landmark adds its pair under the next key. */
  lemma LandmarksDictSnoc(face: Face, h: nat, w: nat, l: Landmark)
    ensures LandmarksDict(face + [l], h, w) == LandmarksDict(face, h, w)[LandmarkKey(|face|) := PixelPair(l, h, w)]
  {
    assert PixelPairs(face + [l], h, w) == PixelPairs(face, h, w) + [PixelPair(l, h, w)];
    NumberedSnoc("", PixelPairs(face, h, w), PixelPair(l, h, w));
  }

  /** The keys are exactly the numerals "1", ..., str(n) for a face of n landmarks. */
  lemma LandmarksDictKeys(face: Face, h: nat, w: nat, k: string)
    ensures k in LandmarksDict(face, h, w) <==> Canonical(k) && 1 <= ParseDecimal(k) <= |face|
  {
    NumberedKeyIff("", PixelPairs(face, h, w), k);
    assert k[..0] == "" && k[0..] == k;
  }

  /** Key `str(i + 1)` holds the i-th landmark with x scaled by the width and y by the height. */
  lemma LandmarksDictAt(face: Face, h: nat, w: nat, i: nat)
    requires i < |face|
    ensures LandmarkKey(i) in LandmarksDict(face, h, w)
    ensures LandmarksDict(face, h, w)[LandmarkKey(i)] == [Scale(face[i].x, w), Scale(face[i].y, h)]
  {
    NumberedAt("", PixelPairs(face, h, w), i);
  }

  /** One entry per landmark. */
  lemma LandmarksDictSize(face: Face, h: nat, w: nat)
    ensures |LandmarksDict(face, h, w)| == |face|
  {
    NumberedSize("", PixelPairs(face, h, w));
  }

  /** The extraction is empty exactly when there is no face, or the first face has no landmarks. */
  lemma ExtractionEmptyIff(detection: DetectionResult, h: nat, w: nat)
    ensures Extraction(detection, h, w) == map[] <==> !HasFace(detection)
  {
  }

  /** Faces after the first have no effect on the extraction. */
  lemma ExtractionFirstFaceOnly(first: Face, rest: seq<Face>, h: nat, w: nat)
    ensures Extraction(DetectionResult([first] + rest), h, w) == Extraction(DetectionResult([first]), h, w)
  {
  }
}
