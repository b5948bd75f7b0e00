# Face landmark tracker: a Dafny model of its bookkeeping

The tracker (`VideoFaceLandmarksTracker` in `script.py`) reads a video frame by
frame, runs a face-landmark detector on every frame, and collects the results
in one dictionary. Each frame is stored under the key `frameN`, where N is the
1-based number of the frame. The value is a dictionary numbering the first
detected face's landmarks `"1"` to `"n"`. Each landmark maps to its pixel
position `[x * width, y * height]`. `main` then reports how many frames were
read, how many had a face, and the detection rate.

This project models that bookkeeping and proves its properties. The detector,
the video decoder and the model download are treated as black boxes.

- `Decimal`: `str(n)` for a natural number, and its inverse. So distinct
  numbers give distinct keys, and every canonical numeral is some `str(n)`.
- `NumberedMaps`: a map built by storing the i-th value under
  `tag + str(i)`. Both of the tracker's dictionaries have this shape. Lemmas
  give the exact key set, the value under each key, and the size.
- `Landmarks`: `_extract_landmarks_from_frame` as specification functions:
  no face gives `{}`; otherwise the first face's landmarks, scaled.
- `Video`: the frame source. It is a map from existing paths to containers,
  and a container either cannot be opened or holds frames with a point where
  reading fails. The `Capture` class holds the read position.
- `Tracking`: the `LandmarksTracker` class. Its field `landmarksData` is the
  tracker's dictionary. Its methods `ExtractLandmarksFromFrame` and
  `ProcessVideo` are loops proved against the specification functions.
- `Run`: the statistics in `main`, and `RunMain`, the whole program run.

Points where the code's behaviour is easy to misread:
- Keys are the unpadded `frameN`, not zero-padded.
- A frame's value is the landmark dictionary itself. There is no frame number,
  timestamp or landmark count in it, and there is no metadata block.
- With no frames, the detection rate divides by zero. The exception reaches
  `main`'s handler; the rate is not reported as 0.
- The progress line divides by the container's reported frame count every 30
  frames. If that count is 0, `process_video` raises `ZeroDivisionError` at
  frame 30 and `landmarks_data` keeps frames 1 to 30. This is modelled
  (`Tracking.ProgressFails`); it is not just a display detail.
- On a missing path or an unopenable capture, `process_video` raises before
  it resets `landmarks_data`, so the old dictionary is left as it was.

## Model

| member | source | states |
|---|---|---|
| `Decimal.DecimalString` | script.py:100 | `str(n)` is a non-empty string of digits with no leading zero, and starts with '0' only for 0 |
| `Decimal.ParseDecimalString` | script.py:100 | reading back `str(n)` gives n |
| `Decimal.DecimalStringInjective` | script.py:147 | distinct frame numbers give distinct numerals, so keys never collide |
| `Decimal.DecimalStringOfParse` | script.py:100 | every canonical numeral is `str` of the number it denotes |
| `NumberedMaps.KeyInjective` | script.py:147 | `f"{tag}{i}" == f"{tag}{j}"` only when i == j |
| `Landmarks.LandmarkKey` | script.py:100 | the key of the landmark at position i is the numeral of i + 1 |
| `Landmarks.LandmarksDictKeys` | script.py:94-100 | a key is present if and only if it is the numeral of some 1 <= j <= n, for a face of n landmarks |
| `Landmarks.LandmarksDictAt` | script.py:93-100 | key `str(i + 1)` holds `[Scale(x_i, w), Scale(y_i, h)]`: x by the width, y by the height, no clamping |
| `Landmarks.LandmarksDictSize` | script.py:97-100 | the dictionary has exactly one entry per landmark |
| `Landmarks.Extraction` | script.py:86-102 | `{}` when the detector reports no face; otherwise the first face's dictionary, with exactly as many entries as that face has landmarks |
| `Landmarks.ExtractionEmptyIff` | script.py:86-102 | the extraction is `{}` if and only if there is no face or the first face has no landmarks |
| `Landmarks.ExtractionFirstFaceOnly` | script.py:90 | faces after the first do not change the extraction |
| `Video.ReadCount` | script.py:136-139 | the reads that succeed stop at the first failure: at most the frames there are and at most the failing position |
| `Video.Capture.constructor` | script.py:120 | a new capture is positioned at the first frame |
| `Video.Capture.Read` | script.py:137-139 | a read returns the next frame and advances, or returns nothing once reading fails and stays put |
| `Tracking.FramesMapKeys` | script.py:141-148 | after k frames a key is present if and only if it is "frame" followed by the numeral of some 1 <= j <= k |
| `Tracking.FramesMapAt` | script.py:144-148 | key "frame" + `str(i + 1)` holds the extraction of the i-th frame read |
| `Tracking.FramesMapSize` | script.py:141-148 | one entry per frame read: no entry is overwritten, so `len(result) == frame_count` |
| `Tracking.FramesMapNothingBeyond` | script.py:136-141 | there is no key for frame 0 or for any frame after the last one read |
| `Tracking.FramesMapStep` | script.py:141-148 | reading one more frame adds exactly its extraction under the next key |
| `Tracking.ProgressFails` | script.py:151-152 | the progress division raises in a run exactly when the reported frame count is 0 and some frame number read is a multiple of 30 |
| `Tracking.LandmarksTracker.constructor` | script.py:26-44 | a new tracker holds the given detector and an empty dictionary |
| `Tracking.LandmarksTracker.ExtractLandmarksFromFrame` | script.py:67-102 | the loop builds exactly the extraction of the detector's result for the frame |
| `Tracking.LandmarksTracker.ProcessVideo` | script.py:104-162 | a missing path or an unopenable capture raises and leaves the dictionary unchanged; otherwise the dictionary is reset and ends as the map of the frames read before the first failed read, or of the first 30 frames when a reported count of 0 makes the progress line raise |
| `Run.FramesWithFace` | script.py:209 | the number of entries with a non-empty dictionary is at most the number of entries |
| `Run.FramesWithFaceStore` | script.py:209 | storing a dictionary under a new key adds one to the count exactly when the dictionary is non-empty |
| `Run.CountWithFace` | script.py:209 | counting, frame by frame, the frames whose detection has a face with landmarks gives at most the number of frames |
| `Run.FramesWithFaceCounts` | script.py:208-209 | counting non-empty entries of the run's dictionary counts the frames in which a face was found |
| `Run.Statistics` | script.py:208-216 | with no entries the rate divides by zero; otherwise total = entries, 0 <= with-face <= total, and 0 <= rate <= 1 with rate * total = with-face |
| `Run.ThreeFrameScenario` | script.py:208-216 | three frames with a face in the first and third: frame 2's entry is empty, two frames have a face, rate 2/3 |
| `Run.RunMain` | script.py:180-222 | a missing video stops early; a model, open or division error is caught; otherwise the run completes with the frames read, the frames with a face and their quotient |

## Left out

- The model download `_ensure_model_exists` uses the network and the file system. `RunMain` takes a flag saying whether a model is available.
- The detector, and the colour conversion folded into it, are assumed never to raise. In the code, an exception from `cv2.cvtColor` or `detector.detect` at frame k would leave `landmarks_data` holding frames 1 to k-1 and reach `main`'s handler; that path is not modelled.
- Building the detector and `detect` are calls into a library whose code is not shown. The detector is a function parameter. The BGR-to-RGB conversion and the `mp.Image` wrapping are part of it.
- Video decoding (`cv2.VideoCapture`, `cap.read`, `cap.release`) is modelled as a finite frame sequence with a failure position. FPS is not modelled, because nothing but a print uses it.
- `save_to_json` and the `output_json` argument are left out. They are a `json.dump` call whose errors are only printed, and the code never reads the file back.
- All console output is left out, including the progress percentage itself. Only the division that can raise is modelled.
- Floating point: `Scale(v, dim)` is a real product, and only which value is scaled by which dimension is claimed. `int(cap.get(...))` is the integer field `frameCountHint`. The detection rate is a real quotient, not a rounded float.
