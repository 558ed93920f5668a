/** The capture-format tag that every pixel type names (the crate-level
    `CaptureFormat`). Only its four variants are modelled: the mapping to
    OpenGL constants is not part of this model. */
module Format {
  datatype CaptureFormat = Rgb | Rgba | Bgr | Bgra
}
