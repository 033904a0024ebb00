/**
 The capture worker's thread function as a sequential computation over a
 finite stream of captured frames. The camera and the marker tracker are
 abstract: each captured frame arrives as a record carrying its size, its
 pixels and what the tracker would report for it; whether the device opened
 and the resolution it reports are inputs. The end of the stream stands for
 the stop request.
 */
module CaptureWorker {
  import opened Pixels
  import opened VideoFrame
  import TripleBuffer
  import OrientationSlot
  import opened Driver

  /**
   One frame read from the camera: its size, its pixels in camera order, and
   the marker tracker's answer for it (whether markers were detected and the
   camera pose it estimated). The tracker receives the very image that is
   converted afterwards and may draw into it, so `pixels` is the image as it
   stands after marker detection, not necessarily as the device delivered it.
   */
  datatype CapturedFrame<P> = CapturedFrame(width: nat, height: nat, pixels: seq<Bgr>, markersDetected: bool, cameraTransform: P)

  /** A camera image holds one pixel per position of its size. */
  predicate WellFormed<P>(c: CapturedFrame<P>)
  {
    |c.pixels| == c.width * c.height
  }

  predicate AllWellFormed<P>(cs: seq<CapturedFrame<P>>)
  {
    forall i :: 0 <= i < |cs| ==> WellFormed(cs[i])
  }

  /** The frame has the size negotiated with the device. */
  predicate MatchesResolution<P>(c: CapturedFrame<P>, res: Resolution)
  {
    c.width == res.x && c.height == res.y
  }

  /**
   The device opened: the resolution it reports becomes the driver's, and all
   three frame instances are re-sized for it before any frame is captured.
   Roles, flags and the pose are not touched.
   */
  function OpenDevice<P>(d: DriverState<P>, reported: Resolution, fill: Rgba): (r: DriverState<P>)
    requires TripleBuffer.Valid(d.frames)
    ensures Sized(r) && r.resolution == reported
    ensures r.frames.worker == d.frames.worker && r.frames.available == d.frames.available
    ensures r.frames.published == d.frames.published && r.frames.newFrameReady == d.frames.newFrameReady
    ensures r.orientation == d.orientation && r.performOrientationTracking == d.performOrientationTracking
  {
    var f := SetResolution(reported, fill);
    d.(resolution := reported, frames := d.frames.(instances := [f, f, f]))
  }

  /**
   One iteration of the capture loop. A frame of unexpected size is dropped
   and nothing changes. Otherwise the pose is stored when tracking is on and
   markers were detected, the frame is converted into the worker instance and
   published by one worker/available exchange.
   */
  function Step<P>(d: DriverState<P>, c: CapturedFrame<P>, update: (P, P) -> P): (r: DriverState<P>)
    requires Sized(d) && WellFormed(c)
    ensures Sized(r) && r.resolution == d.resolution && r.performOrientationTracking == d.performOrientationTracking
    ensures !MatchesResolution(c, d.resolution) ==> r == d
    ensures MatchesResolution(c, d.resolution) ==>
              && r.frames.newFrameReady
              && r.frames.available == d.frames.worker && r.frames.worker == d.frames.available
              && r.frames.published == d.frames.published
              && r.frames.instances[r.frames.published] == d.frames.instances[d.frames.published]
              && r.frames.instances[r.frames.worker] == d.frames.instances[d.frames.available]
              && ConvertedFrom(r.frames.instances[r.frames.available].image, c.pixels,
                               TripleBuffer.WorkerFrame(d.frames).image, PixelCount(d.resolution))
    ensures MatchesResolution(c, d.resolution) && d.performOrientationTracking && c.markersDetected ==>
              r.orientation == OrientationSlot.StoreNewOrientation(d.orientation, c.cameraTransform, update)
    ensures !(MatchesResolution(c, d.resolution) && d.performOrientationTracking && c.markersDetected) ==>
              r.orientation == d.orientation
  {
    if !MatchesResolution(c, d.resolution) then
      d
    else
      var orientation :=
        if d.performOrientationTracking && c.markersDetected
        then OrientationSlot.StoreNewOrientation(d.orientation, c.cameraTransform, update)
        else d.orientation;
      var worker := TripleBuffer.WorkerFrame(d.frames);
      var image := Converted(c.pixels, worker.image, PixelCount(d.resolution));
      d.(orientation := orientation, frames := TripleBuffer.Publish(d.frames, worker.(image := image)))
  }

  /** The capture loop over `cs`, oldest frame first, once the device is open. */
  function RunFrames<P>(d: DriverState<P>, cs: seq<CapturedFrame<P>>, update: (P, P) -> P): (r: DriverState<P>)
    requires Sized(d) && AllWellFormed(cs)
    ensures Sized(r) && r.resolution == d.resolution && r.performOrientationTracking == d.performOrientationTracking
    decreases |cs|
  {
    if |cs| == 0 then d else Step(RunFrames(d, cs[..|cs| - 1], update), cs[|cs| - 1], update)
  }

  /**
   The whole thread function. If the device fails to open no iteration runs
   and the driver is left exactly as it was; otherwise every frame instance
   carries the reported resolution before the first iteration and keeps it.
   */
  function Run<P>(d: DriverState<P>, deviceOpened: bool, reported: Resolution, fill: Rgba,
                  cs: seq<CapturedFrame<P>>, update: (P, P) -> P): (r: DriverState<P>)
    requires TripleBuffer.Valid(d.frames) && AllWellFormed(cs)
    ensures !deviceOpened ==> r == d
    ensures deviceOpened ==> Sized(r) && r.resolution == reported
  {
    if !deviceOpened then d else RunFrames(OpenDevice(d, reported, fill), cs, update)
  }

  /**
   The thread function written as the driver's loop: `bContinue` is cleared
   when the device does not open, each iteration checks the frame size, stores
   the pose, runs the pixel copy and publishes.
   */
  method CaptureLoop<P>(d0: DriverState<P>, deviceOpened: bool, reported: Resolution, fill: Rgba,
                        cs: seq<CapturedFrame<P>>, update: (P, P) -> P) returns (d: DriverState<P>)
    requires TripleBuffer.Valid(d0.frames) && AllWellFormed(cs)
    ensures d == Run(d0, deviceOpened, reported, fill, cs, update)
  {
    var bContinue := true;
    d := d0;
    if deviceOpened {
      d := OpenDevice(d, reported, fill);
    } else {
      bContinue := false;
    }
    ghost var start := d;
    var i := 0;
    while bContinue && i < |cs|
      invariant 0 <= i <= |cs|
      invariant bContinue == deviceOpened
      invariant !deviceOpened ==> d == d0
      invariant deviceOpened ==> Sized(start) && start == OpenDevice(d0, reported, fill)
      invariant deviceOpened ==> Sized(d) && d == RunFrames(start, cs[..i], update)
    {
      var c := cs[i];
      assert WellFormed(c);
      ghost var before := d;
      if c.width != d.resolution.x || c.height != d.resolution.y {
        // frame of unexpected size: dropped
      } else {
        if d.performOrientationTracking && c.markersDetected {
          d := d.(orientation := OrientationSlot.StoreNewOrientation(d.orientation, c.cameraTransform, update));
        }
        var worker := TripleBuffer.WorkerFrame(d.frames);
        var pixelCount := PixelCount(d.resolution);
        var image := ConvertBgrToRgba(c.pixels, worker.image, pixelCount);
        ConvertedFromIsUnique(image, c.pixels, worker.image, pixelCount);
        d := d.(frames := TripleBuffer.Publish(d.frames, worker.(image := image)));
      }
      assert d == Step(before, c, update);
      assert cs[..i + 1][..i] == cs[..i];
      i := i + 1;
    }
    if deviceOpened {
      assert cs[..i] == cs;
    }
  }
}
