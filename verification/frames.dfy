/**
 * Frames as the playback loop sees them: a size and opaque pixel content.
 * Decoding, rotation and drawing are OpenCV operations; the model keeps
 * only their effect on the frame's shape and a record of what was done.
 */
module Frames {

  /** `cv2.ROTATE_90_CLOCKWISE` and `cv2.ROTATE_90_COUNTERCLOCKWISE`. */
  datatype Turn = Clockwise | Counterclockwise

  /** Opaque pixel content: a decoded image, or a rotation of one. */
  datatype Pixels = Decoded(id: nat) | Turned(turn: Turn, base: Pixels)

  /** `frame.shape[:2]` is `(height, width)`. */
  datatype Frame = Frame(width: nat, height: nat, pixels: Pixels)

  /** `cv2.rotate`: a quarter turn swaps width and height. */
  function Rotate(f: Frame, t: Turn): (r: Frame)
    ensures r.width == f.height && r.height == f.width
    ensures r.pixels == Turned(t, f.pixels)
  {
    Frame(f.height, f.width, Turned(t, f.pixels))
  }
}
