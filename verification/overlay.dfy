/**
 * What is shown for one frame: the frame, rotated at most once, and
 * optionally its index drawn as text at an anchor taken from the size of
 * the frame before rotation.
 */
module Overlay {
  import opened Wrappers
  import opened Frames
  import Decimal

  /** Ten times the distance between `x` and `0.8 * width`. */
  function Tenths(x: int, width: nat): nat {
    if 10 * x >= 8 * width then 10 * x - 8 * width else 8 * width - 10 * x
  }

  /** `round(0.8 * width)`: the integer nearest to 4/5 of the width. The
      fractional part of 4w/5 is a multiple of 1/5, so the nearest integer
      is unique and Python's half-to-even rule never comes into play. */
  function LabelX(width: nat): (x: nat)
    ensures 2 * Tenths(x, width) < 10
  {
    var x := (8 * width + 5) / 10;
    assert 10 * x <= 8 * width + 5 < 10 * x + 10;
    x
  }

  /** Every other integer is strictly farther from `0.8 * width`: the
      anchor is the unique nearest integer, so no half-way tie arises. */
  lemma LabelXIsNearest(width: nat, y: int)
    requires y != LabelX(width)
    ensures Tenths(LabelX(width), width) < Tenths(y, width)
  {
    var x := LabelX(width);
    assert 10 * x - 8 * width < 5 && 8 * width - 10 * x < 5;
    if y > x {
      assert 10 * y - 8 * width >= 10 + 10 * x - 8 * width;
    } else {
      assert 8 * width - 10 * y >= 10 + 8 * width - 10 * x;
    }
  }

  /** The label drawn by `cv2.putText`: the text and its x anchor. */
  datatype Label = Label(text: string, x: nat)

  /** The image passed to `cv2.imshow`. */
  datatype Shown = Shown(frame: Frame, caption: Option<Label>)

  /** Rotates frame `i` as `turn` says and, when `frameNum` is set, labels
      it with `str(i)` at the x anchor of the unrotated frame. */
  function Compose(f: Frame, i: nat, turn: Option<Turn>, frameNum: bool): (s: Shown)
    ensures turn.None? ==> s.frame == f
    ensures turn.Some? ==> s.frame == Rotate(f, turn.value)
    ensures s.caption.Some? <==> frameNum
    ensures s.caption.Some? ==> s.caption.value == Label(Decimal.Show(i), LabelX(f.width))
  {
    var g := match turn
      case None => f
      case Some(t) => Rotate(f, t);
    Shown(g, if frameNum then Some(Label(Decimal.Show(i), LabelX(f.width))) else None)
  }

  /** The label on frame `i` reads back as `i`, and its anchor is 4/5 of
      the way across the frame as it was before rotation, not after. */
  lemma CaptionNamesFrame(f: Frame, i: nat, turn: Option<Turn>)
    ensures var c := Compose(f, i, turn, true).caption;
            && c.Some?
            && Decimal.ParseInt(c.value.text) == Some(i)
            && 2 * Tenths(c.value.x, f.width) < 10
  {
    Decimal.ParseShow(i);
  }
}
