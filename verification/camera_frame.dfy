/** The frame the camera session builds for each preview callback: the raw
    preview bytes plus the image description handed to the recognizer. */
module CameraFrame {
  import opened Wrappers
  import Orientation

  /** The description attached to the bytes; the pixel format is always
      NV21 and is not recorded. */
  datatype Metadata = Metadata(width: int, height: int, rotation: Orientation.Rotation)

  /** `data` is None once the frame has been closed. */
  datatype Frame = Frame(data: Option<seq<bv8>>, metadata: Metadata)

  predicate IsClosed(f: Frame) {
    f.data.None?
  }

  /** Closing drops the bytes and keeps the description. */
  function Close(f: Frame): (r: Frame)
    ensures IsClosed(r)
    ensures r.metadata == f.metadata
  {
    f.(data := None)
  }

  /** Closing twice is the same as closing once. */
  lemma CloseIdempotent(f: Frame)
    ensures Close(Close(f)) == Close(f)
  {
  }
}
