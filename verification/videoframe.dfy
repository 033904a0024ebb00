/**
 A video frame handed from the capture worker to the consumer: an RGBA image
 together with the resolution it was sized for.
 */
module VideoFrame {
  import opened Pixels

  /** Width (`x`) and height (`y`) in pixels. */
  datatype Resolution = Resolution(x: nat, y: nat)

  /** The number of pixels an image of resolution `res` holds. */
  function PixelCount(res: Resolution): nat
  {
    res.x * res.y
  }

  datatype Frame = Frame(resolution: Resolution, image: seq<Rgba>)

  /** The frame was sized for `res` and its image holds exactly that many pixels. */
  predicate SizedFor(f: Frame, res: Resolution)
  {
    f.resolution == res && |f.image| == PixelCount(res)
  }

  /**
   A frame after it was re-sized for `res`. The pixels of the re-allocated
   image are not determined by the driver; the model fills them with `fill`.
   */
  function SetResolution(res: Resolution, fill: Rgba): (r: Frame)
    ensures SizedFor(r, res)
  {
    Frame(res, seq(PixelCount(res), _ => fill))
  }
}
