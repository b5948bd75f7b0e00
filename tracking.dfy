/**
 * The tracker: `process_video` reads a video frame by frame and stores each
 * frame's landmark dictionary under "frame1", "frame2", ... in its
 * `landmarks_data` dictionary, which it resets at the start of every run.
 */
module Tracking {
  import opened Wrappers
  import opened Decimal
  import opened NumberedMaps
  import opened Landmarks
  import opened Video

  /** The exceptions the program raises and `main` catches. */
  datatype Error =
    | FileNotFound(path: string)   // FileNotFoundError: the video path does not exist
    | CannotOpen(path: string)     // ValueError: the capture is not opened
    | ZeroDivision                 // ZeroDivisionError: a division by a zero frame count
    | ModelUnavailable             // RuntimeError: the detector model could not be obtained

  /** The run's result: frame key to that frame's landmark dictionary. */
  type FrameData = map<string, LandmarkDict>

  /** Progress is reported every this many frames. */
  const ProgressInterval: nat := 30

  /** `f"frame{n}"`: no padding. */
  function FrameKey(n: nat): string {
    Key("frame", n)
  }

  /** The dictionary extracted from one frame by a given detector. */
  function FrameExtraction(detect: Frame -> DetectionResult, f: Frame): LandmarkDict {
    Extraction(detect(f), f.height, f.width)
  }

  function Extractions(detect: Frame -> DetectionResult, frames: seq<Frame>): seq<LandmarkDict> {
    seq(|frames|, i requires 0 <= i < |frames| => FrameExtraction(detect, frames[i]))
  }

  /** The run's dictionary after the given frames have been read, in order. */
  function FramesMap(detect: Frame -> DetectionResult, frames: seq<Frame>): FrameData {
    Numbered("frame", Extractions(detect, frames))
  }

  /**
   * The progress line divides the frame number by the container's reported
   * frame count every `ProgressInterval` frames; a reported count of 0 makes
   * that division raise as soon as that many frames have been read.
   */
  predicate ProgressFails(v: Video): (fails: bool)
    ensures fails <==>
      (v.frameCountHint == 0 && exists n :: 1 <= n <= ReadCount(v) && n % ProgressInterval == 0)
  {
    assert ReadCount(v) >= ProgressInterval ==> ProgressInterval % ProgressInterval == 0;
    v.frameCountHint == 0 && ReadCount(v) >= ProgressInterval
  }

  lemma FramesMapSnoc(detect: Frame -> DetectionResult, frames: seq<Frame>, f: Frame)
    ensures FramesMap(detect, frames + [f]) == FramesMap(detect, frames)[FrameKey(|frames| + 1) := FrameExtraction(detect, f)]
  {
    assert Extractions(detect, frames + [f]) == Extractions(detect, frames) + [FrameExtraction(detect, f)];
    NumberedSnoc("frame", Extractions(detect, frames), FrameExtraction(detect, f));
  }

  /** Reading frame n+1 of a video adds its extraction under the next key. */
  lemma FramesMapStep(detect: Frame -> DetectionResult, frames: seq<Frame>, n: nat)
    requires n < |frames|
    ensures FramesMap(detect, frames[..n + 1]) == FramesMap(detect, frames[..n])[FrameKey(n + 1) := FrameExtraction(detect, frames[n])]
  {
    assert frames[..n + 1] == frames[..n] + [frames[n]];
    FramesMapSnoc(detect, frames[..n], frames[n]);
  }

  /** The keys are exactly "frame" followed by the numeral of some 1 <= j <= |frames|. */
  lemma FramesMapKeys(detect: Frame -> DetectionResult, frames: seq<Frame>, k: string)
    ensures k in FramesMap(detect, frames) <==>
      |k| >= 5 && k[..5] == "frame" && Canonical(k[5..]) && 1 <= ParseDecimal(k[5..]) <= |frames|
  {
    NumberedKeyIff("frame", Extractions(detect, frames), k);
  }

  /** Key "frame" + str(i + 1) holds the extraction of the i-th frame read. */
  lemma FramesMapAt(detect: Frame -> DetectionResult, frames: seq<Frame>, i: nat)
    requires i < |frames|
    ensures FrameKey(i + 1) in FramesMap(detect, frames)
    ensures FramesMap(detect, frames)[FrameKey(i + 1)] == FrameExtraction(detect, frames[i])
  {
    NumberedAt("frame", Extractions(detect, frames), i);
  }

  /** One entry per frame read: no entry is ever overwritten. */
  lemma FramesMapSize(detect: Frame -> DetectionResult, frames: seq<Frame>)
    ensures |FramesMap(detect, frames)| == |frames|
  {
    NumberedSize("frame", Extractions(detect, frames));
  }

  /** No key for frame 0 or for any frame past the last one read. */
  lemma FramesMapNothingBeyond(detect: Frame -> DetectionResult, frames: seq<Frame>, j: nat)
    requires j == 0 || j > |frames|
    ensures FrameKey(j) !in FramesMap(detect, frames)
  {
    NumberedKeys("frame", Extractions(detect, frames));
    forall i | 1 <= i <= |frames| ensures FrameKey(j) != Key("frame", i) {
      KeyInjective("frame", j, i);
    }
  }

  class LandmarksTracker {
    /** The face detector, with the colour conversion it is given frames through. */
    const detect: Frame -> DetectionResult
    /** `self.landmarks_data`. */
    var landmarksData: FrameData

    constructor (detect: Frame -> DetectionResult)
      ensures this.detect == detect && landmarksData == map[]
    {
      this.detect := detect;
      landmarksData := map[];
    }

    /** `_extract_landmarks_from_frame`. */
    method ExtractLandmarksFromFrame(frame: Frame) returns (landmarksDict: LandmarkDict)
      ensures landmarksDict == FrameExtraction(detect, frame)
    {
      var detection := detect(frame);
      if |detection.faceLandmarks| == 0 {
        return map[];
      }
      var landmarks := detection.faceLandmarks[0];
      var h, w := frame.height, frame.width;
      landmarksDict := map[];
      for i := 0 to |landmarks|
        invariant landmarksDict == LandmarksDict(landmarks[..i], h, w)
      {
        var x := Scale(landmarks[i].x, w);
        var y := Scale(landmarks[i].y, h);
        LandmarksDictSnoc(landmarks[..i], h, w, landmarks[i]);
        assert landmarks[..i + 1] == landmarks[..i] + [landmarks[i]];
        landmarksDict := landmarksDict[LandmarkKey(i) := [x, y]];
      }
      assert landmarks[..|landmarks|] == landmarks;
    }

    /**
     * `process_video`. The two open checks raise before `landmarks_data` is
     * reset; after that every successfully read frame is stored under its key.
     */
    method ProcessVideo(fs: FileSystem, videoPath: string) returns (r: Result<FrameData, Error>)
      modifies this
      ensures videoPath !in fs ==>
        r == Failure(FileNotFound(videoPath)) && landmarksData == old(landmarksData)
      ensures videoPath in fs && fs[videoPath].Unopenable? ==>
        r == Failure(CannotOpen(videoPath)) && landmarksData == old(landmarksData)
      ensures videoPath in fs && fs[videoPath].Openable? && ProgressFails(fs[videoPath].video) ==>
        r == Failure(ZeroDivision) &&
        landmarksData == FramesMap(detect, fs[videoPath].video.frames[..ProgressInterval])
      ensures videoPath in fs && fs[videoPath].Openable? && !ProgressFails(fs[videoPath].video) ==>
        var v := fs[videoPath].video;
        r == Success(landmarksData) && landmarksData == FramesMap(detect, v.frames[..ReadCount(v)])
    {
      if videoPath !in fs {
        return Failure(FileNotFound(videoPath));
      }
      if fs[videoPath].Unopenable? {
        return Failure(CannotOpen(videoPath));
      }
      var v := fs[videoPath].video;
      var cap := new Capture(v);
      var frameCount := 0;
      landmarksData := map[];
      while true
        invariant cap.video == v && cap.position == frameCount
        invariant frameCount <= ReadCount(v)
        invariant v.frameCountHint == 0 ==> frameCount < ProgressInterval
        invariant landmarksData == FramesMap(detect, v.frames[..frameCount])
        decreases ReadCount(v) - frameCount
      {
        var next := cap.Read();
        if next.None? {
          break;
        }
        var frame := next.value;
        frameCount := frameCount + 1;
        var landmarks := ExtractLandmarksFromFrame(frame);
        var frameKey := FrameKey(frameCount);
        FramesMapStep(detect, v.frames, frameCount - 1);
        landmarksData := landmarksData[frameKey := landmarks];
        if frameCount % ProgressInterval == 0 && v.frameCountHint == 0 {
          assert frameCount == ProgressInterval && ProgressFails(v);
          return Failure(ZeroDivision);
        }
      }
      assert frameCount == ReadCount(v) && !ProgressFails(v);
      r := Success(landmarksData);
    }
  }
}
