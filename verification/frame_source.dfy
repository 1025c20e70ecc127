/**
 * `get_frame` and `get_fps`: where the frames of a session come from.
 * An input path names either a directory of numbered images or a
 * container file that OpenCV decodes.
 */
module FrameSource {
  import opened Wrappers
  import opened Errors
  import opened Frames
  import FrameOrder

  /** What the filesystem and the decoder show for an input path: the two
      glob results of a directory, or a container's reported frame rate
      and the outcomes of successive `cap.read()` calls (`None` for a read
      that returned `ret == False`). */
  datatype Source =
    | Directory(jpgs: seq<string>, pngs: seq<string>)
    | Container(fps: real, grabs: seq<Option<Frame>>)

  /** `get_fps`: the container's `CAP_PROP_FPS`, and `None` for a directory. */
  function ReportedFps(src: Source): (r: Option<real>)
    ensures r.None? <==> src.Directory?
    ensures src.Container? ==> r == Some(src.fps)
  {
    match src
    case Directory(_, _) => None
    case Container(fps, _) => Some(fps)
  }

  /** The container branch: every successful read, in order, up to the
      first failed read (or the end of the stream). */
  function SuccessfulReads(grabs: seq<Option<Frame>>): (r: seq<Frame>)
    ensures |r| <= |grabs|
    ensures forall i :: 0 <= i < |r| ==> grabs[i] == Some(r[i])
    ensures |r| == |grabs| || grabs[|r|].None?
  {
    if grabs == [] || grabs[0].None? then []
    else [grabs[0].value] + SuccessfulReads(grabs[1..])
  }

  /** Everything `get_frame(vfile)` yields, with `load` standing for
      `cv2.imread`. A directory yields one frame per image path in sorted
      order, or raises before yielding anything; a container yields its
      successful reads. */
  function GetFrames(vfile: string, src: Source, load: string -> Frame): (r: Result<seq<Frame>, Error>)
    ensures src.Directory? ==>
              var order := FrameOrder.OrderedPaths(vfile, src.jpgs, src.pngs);
              && (r.Ok? <==> order.Ok?)
              && (r.Err? ==> r.error == order.error)
              && (r.Ok? ==> |r.value| == |order.value| > 0
                            && forall i :: 0 <= i < |r.value| ==> r.value[i] == load(order.value[i]))
    ensures src.Container? ==> r == Ok(SuccessfulReads(src.grabs))
  {
    match src
    case Directory(jpgs, pngs) =>
      var paths :- FrameOrder.OrderedPaths(vfile, jpgs, pngs);
      Ok(seq(|paths|, i requires 0 <= i < |paths| => load(paths[i])))
    case Container(_, grabs) =>
      Ok(SuccessfulReads(grabs))
  }
}
