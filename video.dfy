/**
 * The frame source: a container path that may be missing or undecodable,
 * and a capture that yields frames one at a time until the first failed
 * read (end of stream or a decode failure).
 */
module Video {
  import opened Wrappers

  /** A decoded BGR frame: `shape[:2]` is `(height, width)`. */
  datatype Frame = Frame(height: nat, width: nat, pixels: seq<bv8>)

  /**
   * An openable container: its frames in presentation order, the position
   * `failAt` of the first frame that fails to decode (a value >= |frames|
   * means reads fail only at the end of the stream), and the frame count the
   * container reports, which need not match what actually decodes.
   */
  datatype Video = Video(frames: seq<Frame>, failAt: nat, frameCountHint: int)

  /** The number of reads that succeed before the first failed read. */
  function ReadCount(v: Video): (n: nat)
    ensures n <= |v.frames| && n <= v.failAt
    ensures n == |v.frames| || n == v.failAt
  {
    if v.failAt < |v.frames| then v.failAt else |v.frames|
  }

  /** What is found at a path: a container that cannot be opened, or one that can. */
  datatype Source = Unopenable | Openable(video: Video)

  /** The files the program can see: a path exists exactly when it is a key. */
  type FileSystem = map<string, Source>

  /** An open capture positioned after the frames read so far. */
  class Capture {
    const video: Video
    var position: nat

    constructor (video: Video)
      ensures this.video == video && position == 0
    {
      this.video := video;
      position := 0;
    }

    /** `cap.read()`: the next frame, or nothing once reading fails. */
    method Read() returns (frame: Option<Frame>)
      modifies this
      ensures old(position) < ReadCount(video) ==> frame == Some(video.frames[old(position)]) && position == old(position) + 1
      ensures old(position) >= ReadCount(video) ==> frame == None && position == old(position)
    {
      if position < ReadCount(video) {
        frame := Some(video.frames[position]);
        position := position + 1;
      } else {
        frame := None;
      }
    }
  }
}
