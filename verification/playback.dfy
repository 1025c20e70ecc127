/**
 * The main program of `play_video.py`: resolve the configuration, pull
 * frames from `get_frame`, show each one, and stop at the end of the
 * frames or when the key polled after a frame is `q`.
 */
module Playback {
  import opened Wrappers
  import opened Errors
  import opened Frames
  import opened FrameSource
  import opened Config
  import opened Overlay

  /** `cv2.waitKey` returns -1 when no key was pressed. */
  const NoKey: int := -1

  /** `ord('q')`. */
  const QuitCode: int := 'q' as int

  /** `key & 0xFF` on a Python integer: the low byte, also for negative
      codes (so `-1 & 0xFF == 255`). */
  function LowByte(key: int): (b: int)
    ensures 0 <= b < 256
    ensures (key - b) % 256 == 0
  {
    key % 256
  }

  /** The quit test `cv2.waitKey(10) & 0xFF == ord('q')`: a plain `q`
      quits, no key never does. */
  function Quits(key: int): (q: bool)
    ensures key == NoKey ==> !q
    ensures 0 <= key < 256 ==> (q <==> key == QuitCode)
  {
    LowByte(key) == QuitCode
  }

  /** Only the low byte of the key code matters: a `q` reported with
      modifier bits above the low byte still quits. */
  lemma QuitsIgnoresHighBits(key: int, m: int)
    ensures Quits(key + 256 * m) == Quits(key)
  {
    LowByteUnique(key + 256 * m, key / 256 + m, key % 256);
  }

  /** The low byte is the one residue in [0, 256). */
  lemma LowByteUnique(key: int, q: int, b: int)
    requires key == 256 * q + b && 0 <= b < 256
    ensures LowByte(key) == b
  {
    var d := key / 256 - q;
    assert 256 * d == b - key % 256;
  }

  /** The index of the first key that quits, if any. */
  function FirstQuit(keys: seq<int>): (r: Option<nat>)
    ensures r.Some? ==> r.value < |keys| && Quits(keys[r.value])
    ensures forall j :: 0 <= j < |keys| && (r.None? || j < r.value) ==> !Quits(keys[j])
  {
    if keys == [] then None
    else if Quits(keys[0]) then Some(0)
    else
      match FirstQuit(keys[1..])
      case None => None
      case Some(q) => Some(q + 1)
  }

  /** How long the loop sleeps before showing a frame, given the time
      since the previous frame was shown: it sleeps only when less than
      `spf` has passed, and then exactly long enough to reach `spf`. */
  function PacingDelay(elapsed: real, spf: real): (d: real)
    ensures d >= 0.0
    ensures d > 0.0 <==> elapsed < spf
    ensures elapsed + d >= spf
    ensures d > 0.0 ==> elapsed + d == spf
  {
    if elapsed < spf then spf - elapsed else 0.0
  }

  /** `shown` is what the loop displays for the first `|shown|` frames. */
  predicate ShowsPrefix(shown: seq<Shown>, frames: seq<Frame>, turn: Option<Turn>, frameNum: bool) {
    && |shown| <= |frames|
    && forall j :: 0 <= j < |shown| ==> shown[j] == Compose(frames[j], j, turn, frameNum)
  }

  /** The `for i, frame in enumerate(get_frame(vfile))` loop. `keys[i]` is
      what `cv2.waitKey` returns after frame `i` is shown. Returns the
      images shown, the `n_frames` counter and the `(width, height)` left
      behind by the last frame processed. */
  method PlayLoop(frames: seq<Frame>, keys: seq<int>, turn: Option<Turn>, frameNum: bool)
    returns (shown: seq<Shown>, nFrames: nat, width: nat, height: nat)
    requires |keys| == |frames|
    ensures nFrames == |shown| <= |frames|
    ensures FirstQuit(keys).Some? ==> nFrames == FirstQuit(keys).value + 1
    ensures FirstQuit(keys).None? ==> nFrames == |frames|
    ensures forall j :: 0 <= j < nFrames - 1 ==> !Quits(keys[j])
    ensures nFrames < |frames| ==> 0 < nFrames && Quits(keys[nFrames - 1])
    ensures ShowsPrefix(shown, frames, turn, frameNum)
    ensures nFrames == 0 ==> width == 0 && height == 0
    ensures nFrames > 0 ==> width == frames[nFrames - 1].width && height == frames[nFrames - 1].height
  {
    shown := [];
    nFrames := 0;
    width, height := 0, 0;
    var i := 0;
    while i < |frames|
      invariant 0 <= i <= |frames|
      invariant nFrames == i == |shown|
      invariant forall j :: 0 <= j < i ==> !Quits(keys[j])
      invariant forall j :: 0 <= j < i ==> shown[j] == Compose(frames[j], j, turn, frameNum)
      invariant i == 0 ==> width == 0 && height == 0
      invariant i > 0 ==> width == frames[i - 1].width && height == frames[i - 1].height
    {
      var frame := frames[i];
      height, width := frame.height, frame.width;
      nFrames := nFrames + 1;
      shown := shown + [Compose(frame, i, turn, frameNum)];
      if Quits(keys[i]) {
        return;
      }
      i := i + 1;
    }
  }

  /** Everything decided before the first frame is pulled. */
  datatype Setup = Setup(vfile: string, src: Source, fps: real, spf: real)

  /** Input path, existence check, replay rate and `spf`, in program order. */
  function Prepare(args: Args, fs: map<string, Source>): (r: Result<Setup, Error>)
    ensures InputPath(args).Err? ==> r == Err(NoInputFile)
    ensures InputPath(args).Ok? && InputPath(args).value !in fs ==>
              r == Err(InputNotFound(InputPath(args).value))
    ensures r.Ok? ==>
              && InputPath(args) == Ok(r.value.vfile)
              && r.value.vfile in fs
              && r.value.src == fs[r.value.vfile]
              && r.value.fps == EffectiveFps(args.fps, ReportedFps(r.value.src))
              && r.value.fps != 0.0
              && r.value.spf * r.value.fps == 1.0
    ensures InputPath(args).Ok? && InputPath(args).value in fs ==>
              (r.Ok? <==> EffectiveFps(args.fps, ReportedFps(fs[InputPath(args).value])) != 0.0)
    ensures InputPath(args).Ok? && InputPath(args).value in fs ==> r.Ok? || r == Err(ZeroFps)
    ensures r.Err? && r.error == ZeroFps ==>
              InputPath(args).Ok? && InputPath(args).value in fs
              && EffectiveFps(args.fps, ReportedFps(fs[InputPath(args).value])) == 0.0
  {
    var vfile :- InputPath(args);
    if vfile !in fs then Err(InputNotFound(vfile))
    else
      var src := fs[vfile];
      var fps := EffectiveFps(args.fps, ReportedFps(src));
      var spf :- SecondsPerFrame(fps);
      Ok(Setup(vfile, src, fps, spf))
  }

  /** What `--info` reports, plus the images shown and the pacing period. */
  datatype Report = Report(spf: real, shown: seq<Shown>, nFrames: nat, width: nat, height: nat)

  /** `rep` is a faithful account of playing `frames` while `key(i)` is
      polled after frame `i`: frames are shown in order up to and
      including the first one followed by `q`, each counted, and the size
      reported is that of the last frame shown, before rotation. */
  ghost predicate IsPlayback(rep: Report, frames: seq<Frame>, key: nat -> int, turn: Option<Turn>, frameNum: bool) {
    && rep.nFrames == |rep.shown|
    && ShowsPrefix(rep.shown, frames, turn, frameNum)
    && (forall j: nat :: j + 1 < rep.nFrames ==> !Quits(key(j)))
    && (rep.nFrames < |frames| ==> 0 < rep.nFrames && Quits(key(rep.nFrames - 1)))
    && (rep.nFrames == 0 ==> rep.width == 0 && rep.height == 0)
    && (rep.nFrames > 0 ==>
          rep.width == frames[rep.nFrames - 1].width && rep.height == frames[rep.nFrames - 1].height)
  }

  /** `n_frames` is pinned down by the keys: one more than the index of
      the first frame followed by `q`, or the number of frames when no such
      frame exists. */
  lemma PlaybackCount(rep: Report, frames: seq<Frame>, key: nat -> int, turn: Option<Turn>, frameNum: bool)
    requires IsPlayback(rep, frames, key, turn, frameNum)
    ensures var keys := seq(|frames|, i requires 0 <= i < |frames| => key(i));
            match FirstQuit(keys)
            case Some(q) => rep.nFrames == q + 1
            case None => rep.nFrames == |frames|
  {
    var keys := seq(|frames|, i requires 0 <= i < |frames| => key(i));
    assert forall j :: 0 <= j < |frames| ==> keys[j] == key(j);
  }

  /** The loop run over the frames `get_frame` produced. */
  method Replay(frames: seq<Frame>, key: nat -> int, turn: Option<Turn>, frameNum: bool, spf: real)
    returns (rep: Report)
    ensures rep.spf == spf
    ensures IsPlayback(rep, frames, key, turn, frameNum)
  {
    var keys := seq(|frames|, i requires 0 <= i < |frames| => key(i));
    var shown, nFrames, width, height := PlayLoop(frames, keys, turn, frameNum);
    forall j: nat | j + 1 < nFrames ensures !Quits(key(j)) {
      assert keys[j] == key(j);
    }
    rep := Report(spf, shown, nFrames, width, height);
  }

  /** One run of `play_video.py`. `fs` maps every existing path to what is
      found there, `load` stands for `cv2.imread`, and `key(i)` for what
      `cv2.waitKey` returns after frame `i`. */
  method Session(args: Args, fs: map<string, Source>, load: string -> Frame, key: nat -> int)
    returns (r: Result<Report, Error>)
    ensures Prepare(args, fs).Err? ==> r == Err(Prepare(args, fs).error)
    ensures Prepare(args, fs).Ok? ==>
              var setup := Prepare(args, fs).value;
              var frames := GetFrames(setup.vfile, setup.src, load);
              && (frames.Err? ==> r == Err(frames.error))
              && (frames.Ok? ==>
                    && r.Ok?
                    && r.value.spf == setup.spf
                    && IsPlayback(r.value, frames.value, key,
                                  ChooseTurn(args.rotateLeft, args.rotateRight), args.frameNum))
  {
    var prepared := Prepare(args, fs);
    if prepared.Err? {
      return Err(prepared.error);
    }
    var setup := prepared.value;
    var pulled := GetFrames(setup.vfile, setup.src, load);
    if pulled.Err? {
      return Err(pulled.error);
    }
    var turn := ChooseTurn(args.rotateLeft, args.rotateRight);
    var rep := Replay(pulled.value, key, turn, args.frameNum, setup.spf);
    r := Ok(rep);
  }
}
