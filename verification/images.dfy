/** The image values the two image services accept, and the loading step they
    share (modules/emotion_detector.py, modules/vision_analyzer.py). Pixel
    values are not modelled: a decoded frame is its shape. */
module Images {
  import opened Effects

  /** A decoded `numpy` image of shape height x width x channels. */
  datatype Frame = Frame(height: nat, width: nat, channels: nat) {
    /** `ndarray.size` */
    function Size(): nat { height * width * channels }
  }

  /** What a path on disk holds when `cv2.imread` reads it. */
  datatype Stored = Unreadable | Decodes(frame: Frame)

  /** The argument handed to `detect` / `analyze_scene`: `None`, a path
      string (with what the file system holds there, `None` when nothing
      exists at that path), a `numpy` array, or any other Python value. */
  datatype ImageInput =
    | NoImage
    | ImagePath(path: string, file: Option<Stored>)
    | ImageArray(frame: Frame)
    | OtherValue

  /** `cv2.imread(path)`: `None` for a missing or undecodable file. */
  function ReadImage(file: Option<Stored>): (img: Option<Frame>)
    ensures img.Some? <==> file.Some? && file.value.Decodes?
    ensures img.Some? ==> img.value == file.value.frame
  {
    match file
    case Some(Decodes(f)) => Some(f)
    case _ => None
  }

  /** The frame both services check with `img is None or img.size == 0`. */
  predicate Usable(img: Option<Frame>) {
    img.Some? && img.value.Size() > 0
  }
}
