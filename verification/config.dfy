/**
 * Start-up decisions of `play_video.py`: which input to open, the replay
 * rate and the rotation to apply.
 */
module Config {
  import opened Wrappers
  import opened Errors
  import opened Frames

  /** The parsed command line: `--infile`, the remaining positional
      arguments, `--fps` and the four switches. */
  datatype Args = Args(
    infile: Option<string>,
    other: seq<string>,
    fps: Option<int>,
    rotateRight: bool,
    rotateLeft: bool,
    frameNum: bool,
    info: bool)

  /** The replay rate used for a directory, which reports none. */
  const DefaultFps: real := 60.0

  /** The input path: `--infile` when it is given and non-empty (Python
      truthiness), else the first positional argument, else a failed
      assertion. */
  function InputPath(args: Args): (r: Result<string, Error>)
    ensures args.infile.Some? && args.infile.value != "" ==> r == Ok(args.infile.value)
    ensures (args.infile.None? || args.infile.value == "") && args.other != [] ==> r == Ok(args.other[0])
    ensures r.Err? <==> (args.infile.None? || args.infile.value == "") && args.other == []
    ensures r.Err? ==> r.error == NoInputFile
  {
    if args.infile.Some? && args.infile.value != "" then Ok(args.infile.value)
    else if args.other != [] then Ok(args.other[0])
    else Err(NoInputFile)
  }

  /** The replay rate: `--fps` when supplied (even 0 or negative), else
      what `get_fps` reports, else 60. */
  function EffectiveFps(requested: Option<int>, reported: Option<real>): (fps: real)
    ensures requested.Some? ==> fps == requested.value as real
    ensures requested.None? && reported.Some? ==> fps == reported.value
    ensures requested.None? && reported.None? ==> fps == DefaultFps
  {
    match requested
    case Some(n) => n as real
    case None =>
      match reported
      case Some(f) => f
      case None => DefaultFps
  }

  /** `spf = float(1.0 / fps)`; the division raises when `fps` is zero. */
  function SecondsPerFrame(fps: real): (r: Result<real, Error>)
    ensures r.Ok? <==> fps != 0.0
    ensures r.Ok? ==> r.value * fps == 1.0
    ensures r.Err? ==> r.error == ZeroFps
  {
    if fps == 0.0 then Err(ZeroFps) else Ok(1.0 / fps)
  }

  /** The one rotation applied to every frame, if any: `--rotate_left`
      takes precedence over `--rotate_right`. */
  function ChooseTurn(rotateLeft: bool, rotateRight: bool): (t: Option<Turn>)
    ensures rotateLeft ==> t == Some(Counterclockwise)
    ensures !rotateLeft && rotateRight ==> t == Some(Clockwise)
    ensures t.None? <==> !rotateLeft && !rotateRight
  {
    if rotateLeft then Some(Counterclockwise)
    else if rotateRight then Some(Clockwise)
    else None
  }
}
