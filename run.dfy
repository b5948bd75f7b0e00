/**
 * The program's entry point: check that the fixed input video exists,
 * build the tracker, process the video, and compute the run statistics
 * (frames read, frames with a face, detection rate).
 */
module Run {
  import opened Wrappers
  import opened Landmarks
  import opened Video
  import opened Tracking

  /** The fixed input path. */
  const VideoPath: string := "./video.mp4"

  /** The keys whose frame dictionary is non-empty (truthy). */
  function WithFaceKeys(result: FrameData): set<string> {
    set k | k in result && result[k] != map[]
  }

  /** `sum(1 for frame_data in result.values() if frame_data)`: entries whose dictionary is non-empty. */
  function FramesWithFace(result: FrameData): (n: nat)
    ensures n <= |result|
  {
    SubsetCardinality(WithFaceKeys(result), result.Keys);
    |WithFaceKeys(result)|
  }

  /** Storing under a new key adds one to the count exactly when the stored dictionary is non-empty. */
  lemma FramesWithFaceStore(result: FrameData, key: string, d: LandmarkDict)
    requires key !in result
    ensures FramesWithFace(result[key := d]) == FramesWithFace(result) + (if d != map[] then 1 else 0)
  {
    assert key !in WithFaceKeys(result);
    if d == map[] {
      assert WithFaceKeys(result[key := d]) == WithFaceKeys(result);
    } else {
      assert WithFaceKeys(result[key := d]) == WithFaceKeys(result) + {key};
    }
  }

  lemma {:induction false} SubsetCardinality<T>(a: set<T>, b: set<T>)
    requires a <= b
    ensures |a| <= |b|
  {
    if a != {} {
      var x :| x in a;
      SubsetCardinality(a - {x}, b - {x});
    }
  }

  /** The number of frames, in order, in which the detector found a face with landmarks. */
  function CountWithFace(detect: Frame -> DetectionResult, frames: seq<Frame>): (n: nat)
    ensures n <= |frames|
  {
    if |frames| == 0 then 0
    else CountWithFace(detect, frames[..|frames| - 1]) + (if HasFace(detect(frames[|frames| - 1])) then 1 else 0)
  }

  /** The statistics `main` reports. */
  datatype Stats = Stats(totalFrames: nat, framesWithFace: nat, detectionRate: real)

  /**
   * `total_frames`, `frames_with_face` and their quotient; the quotient
   * raises when no frame was read.
   */
  function Statistics(result: FrameData): (r: Result<Stats, Error>)
    ensures r.Failure? <==> |result| == 0
    ensures r.Failure? ==> r.error == ZeroDivision
    ensures r.Success? ==>
      && r.value.totalFrames == |result|
      && r.value.framesWithFace == FramesWithFace(result)
      && r.value.framesWithFace <= r.value.totalFrames
      && 0.0 <= r.value.detectionRate <= 1.0
      && r.value.detectionRate * r.value.totalFrames as real == r.value.framesWithFace as real
  {
    var total := |result|;
    var withFace := FramesWithFace(result);
    if total == 0 then Failure(ZeroDivision) else Success(Stats(total, withFace, withFace as real / total as real))
  }

  /** Counting non-empty entries of the run's dictionary counts the frames in which a face was found. */
  lemma {:induction false} FramesWithFaceCounts(detect: Frame -> DetectionResult, frames: seq<Frame>)
    ensures FramesWithFace(FramesMap(detect, frames)) == CountWithFace(detect, frames)
  {
    var n := |frames|;
    if n == 0 {
      assert FramesMap(detect, frames) == map[];
    } else {
      var prefix, f := frames[..n - 1], frames[n - 1];
      FramesWithFaceCounts(detect, prefix);
      assert frames == prefix + [f];
      FramesMapSnoc(detect, prefix, f);
      FramesMapNothingBeyond(detect, prefix, n);
      ExtractionEmptyIff(detect(f), f.height, f.width);
      FramesWithFaceStore(FramesMap(detect, prefix), FrameKey(n), FrameExtraction(detect, f));
    }
  }

  /**
   * Three frames, a face in the first and the third: three entries, the
   * second one empty, two frames with a face, rate 2/3.
   */
  lemma ThreeFrameScenario(detect: Frame -> DetectionResult, f1: Frame, f2: Frame, f3: Frame, face: Face)
    requires |face| > 0
    requires detect(f1) == DetectionResult([face]) && detect(f3) == DetectionResult([face])
    requires detect(f2) == DetectionResult([])
    ensures var result := FramesMap(detect, [f1, f2, f3]);
      && FrameKey(1) in result && |result[FrameKey(1)]| == |face|
      && FrameKey(2) in result && result[FrameKey(2)] == map[]
      && Statistics(result) == Success(Stats(3, 2, 2.0 / 3.0))
  {
    var frames := [f1, f2, f3];
    FramesMapSize(detect, frames);
    FramesWithFaceCounts(detect, frames);
    FramesMapAt(detect, frames, 0);
    FramesMapAt(detect, frames, 1);
    LandmarksDictSize(face, f1.height, f1.width);
    assert frames[..2] == [f1, f2] && frames[..2][..1] == [f1] && frames[..2][..1][..0] == [];
    assert CountWithFace(detect, [f1]) == 1;
    assert CountWithFace(detect, [f1, f2]) == 1;
    assert CountWithFace(detect, frames) == 2;
  }

  /** What a run of the program ends with. */
  datatype RunOutcome =
    | VideoMissing           // the early existence check in `main` returns
    | Failed(error: Error)   // an exception reached `main`'s handler
    | Completed(stats: Stats)

  /**
   * `main`. `modelAvailable` says whether the detector model is on disk or
   * can be downloaded; the detector itself is `detect`.
   */
  method RunMain(fs: FileSystem, modelAvailable: bool, detect: Frame -> DetectionResult) returns (outcome: RunOutcome)
    ensures VideoPath !in fs ==> outcome == VideoMissing
    ensures VideoPath in fs && !modelAvailable ==> outcome == Failed(ModelUnavailable)
    ensures VideoPath in fs && modelAvailable && fs[VideoPath].Unopenable? ==>
      outcome == Failed(CannotOpen(VideoPath))
    ensures VideoPath in fs && modelAvailable && fs[VideoPath].Openable? ==>
      var v := fs[VideoPath].video;
      var n := ReadCount(v);
      var withFace := CountWithFace(detect, v.frames[..n]);
      outcome == if ProgressFails(v) || n == 0 then Failed(ZeroDivision)
                 else Completed(Stats(n, withFace, withFace as real / n as real))
  {
    if VideoPath !in fs {
      return VideoMissing;
    }
    if !modelAvailable {
      return Failed(ModelUnavailable);
    }
    var tracker := new LandmarksTracker(detect);
    var result := tracker.ProcessVideo(fs, VideoPath);
    if result.Failure? {
      return Failed(result.error);
    }
    var stats := Statistics(result.value);
    if stats.Failure? {
      return Failed(stats.error);
    }
    var v := fs[VideoPath].video;
    var n := ReadCount(v);
    FramesMapSize(detect, v.frames[..n]);
    FramesWithFaceCounts(detect, v.frames[..n]);
    outcome := Completed(stats.value);
  }
}
