/**
 The OpenCV driver's shared state as the capture worker and the consumer see
 it: the three frame instances with their roles, the orientation slot, the
 negotiated camera resolution and the tracking switch.
 */
module Driver {
  import opened Pixels
  import opened VideoFrame
  import TripleBuffer
  import OrientationSlot

  datatype DriverState<P> = DriverState(
    frames: TripleBuffer.Buffers<Frame>,
    orientation: OrientationSlot.Holder<P>,
    resolution: Resolution,
    performOrientationTracking: bool)

  /**
   Driver initialisation: both "new data" flags cleared and the worker,
   available and published roles pointed at instances 0, 1 and 2. The pose
   held by the base driver is kept.
   */
  function Initialize<P>(instances: seq<Frame>, currentOrientation: P, resolution: Resolution, tracking: bool): (d: DriverState<P>)
    requires |instances| == 3
    ensures TripleBuffer.Valid(d.frames) && d.frames.instances == instances
    ensures d.frames.worker == 0 && d.frames.available == 1 && d.frames.published == 2
    ensures !TripleBuffer.IsNewFrameAvailable(d.frames)
    ensures !OrientationSlot.IsNewOrientationAvailable(d.orientation)
    ensures d.orientation.currentOrientation == currentOrientation
    ensures d.resolution == resolution && d.performOrientationTracking == tracking
  {
    DriverState(TripleBuffer.Initialize(instances), OrientationSlot.Initialize(currentOrientation), resolution, tracking)
  }

  /** Valid roles, and every instance sized for the driver's resolution. */
  predicate Sized<P>(d: DriverState<P>)
  {
    && TripleBuffer.Valid(d.frames)
    && forall i :: 0 <= i < 3 ==> SizedFor(d.frames.instances[i], d.resolution)
  }
}
