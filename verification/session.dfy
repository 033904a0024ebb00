/**
 Properties of whole capture runs and of runs interleaved with consumer
 reads, each driver operation taken as atomic.
 */
module Session {
  import opened Pixels
  import opened VideoFrame
  import TripleBuffer
  import OrientationSlot
  import opened Driver
  import opened CaptureWorker

  /**
   The index of the last frame of `cs` that has resolution `res`, or -1 when
   none has it.
   */
  function LastMatch<P>(cs: seq<CapturedFrame<P>>, res: Resolution): (k: int)
    ensures -1 <= k < |cs|
    ensures k >= 0 ==> MatchesResolution(cs[k], res)
    ensures forall j :: k < j < |cs| ==> !MatchesResolution(cs[j], res)
    decreases |cs|
  {
    if |cs| == 0 then -1
    else if MatchesResolution(cs[|cs| - 1], res) then |cs| - 1
    else LastMatch(cs[..|cs| - 1], res)
  }

  /**
   After a run the available instance holds the last frame of the right size
   and a new frame is flagged; when no frame had the right size the frame
   instances and their roles are exactly as before the run.
   */
  lemma {:induction false} RunFramesLeavesLastMatchAvailable<P>(d: DriverState<P>, cs: seq<CapturedFrame<P>>, update: (P, P) -> P)
    requires Sized(d) && AllWellFormed(cs)
    ensures var r := RunFrames(d, cs, update);
            var k := LastMatch(cs, d.resolution);
            && (k >= 0 ==> r.frames.newFrameReady)
            && (k >= 0 ==> CarriesColours(r.frames.instances[r.frames.available].image, cs[k].pixels, PixelCount(d.resolution)))
            && (k == -1 ==> r.frames == d.frames)
    decreases |cs|
  {
    if |cs| > 0 {
      var init := cs[..|cs| - 1];
      assert AllWellFormed(init) by {
        forall i | 0 <= i < |init| ensures WellFormed(init[i]) { assert init[i] == cs[i]; }
      }
      RunFramesLeavesLastMatchAvailable(d, init, update);
      var prev := RunFrames(d, init, update);
      var c := cs[|cs| - 1];
      if !MatchesResolution(c, d.resolution) {
        assert LastMatch(cs, d.resolution) == LastMatch(init, d.resolution);
        if LastMatch(init, d.resolution) >= 0 {
          assert cs[LastMatch(init, d.resolution)] == init[LastMatch(init, d.resolution)];
        }
      } else {
        assert WellFormed(c);
        var r := Step(prev, c, update);
        assert ConvertedFrom(r.frames.instances[r.frames.available].image, c.pixels,
                             TripleBuffer.WorkerFrame(prev.frames).image, PixelCount(d.resolution));
      }
    }
  }

  /**
   End to end, latest wins: when the device opened and at least one captured
   frame had the reported size, the consumer's next claim hands out a frame of
   the negotiated resolution whose colours are those of the last such frame
   (as the marker tracker left its image);
   frames of the wrong size in between or after are never seen.
   */
  lemma {:induction false} ClaimAfterRunShowsLastMatchingFrame<P>(d: DriverState<P>, reported: Resolution, fill: Rgba,
                                                                 cs: seq<CapturedFrame<P>>, update: (P, P) -> P)
    requires TripleBuffer.Valid(d.frames) && AllWellFormed(cs)
    requires LastMatch(cs, reported) >= 0
    ensures var r := Run(d, true, reported, fill, cs, update);
            var f := TripleBuffer.ClaimedFrame(r.frames);
            && SizedFor(f, reported)
            && CarriesColours(f.image, cs[LastMatch(cs, reported)].pixels, PixelCount(reported))
  {
    RunFramesLeavesLastMatchAvailable(OpenDevice(d, reported, fill), cs, update);
  }

  /**
   With tracking switched off, or no markers detected in any frame, a run
   leaves the orientation slot exactly as it was.
   */
  lemma {:induction false} RunFramesKeepsOrientationWithoutDetections<P>(d: DriverState<P>, cs: seq<CapturedFrame<P>>, update: (P, P) -> P)
    requires Sized(d) && AllWellFormed(cs)
    requires !d.performOrientationTracking || forall i :: 0 <= i < |cs| ==> !cs[i].markersDetected
    ensures RunFrames(d, cs, update).orientation == d.orientation
    decreases |cs|
  {
    if |cs| > 0 {
      var init := cs[..|cs| - 1];
      assert AllWellFormed(init) by {
        forall i | 0 <= i < |init| ensures WellFormed(init[i]) { assert init[i] == cs[i]; }
      }
      if d.performOrientationTracking {
        forall i | 0 <= i < |init| ensures !init[i].markersDetected { assert init[i] == cs[i]; }
      }
      RunFramesKeepsOrientationWithoutDetections(d, init, update);
      assert WellFormed(cs[|cs| - 1]);
    }
  }

  /**
   A device that fails to open right after initialisation: nothing is ever
   published, the consumer keeps getting instance 2 and neither flag is raised.
   */
  lemma FailedOpenPublishesNothing<P>(instances: seq<Frame>, pose: P, resolution: Resolution, tracking: bool,
                                      reported: Resolution, fill: Rgba, cs: seq<CapturedFrame<P>>, update: (P, P) -> P)
    requires |instances| == 3 && AllWellFormed(cs)
    ensures var r := Run(Initialize(instances, pose, resolution, tracking), false, reported, fill, cs, update);
            && !TripleBuffer.IsNewFrameAvailable(r.frames)
            && !OrientationSlot.IsNewOrientationAvailable(r.orientation)
            && TripleBuffer.GetFrame(r.frames).1 == 2
            && TripleBuffer.ClaimedFrame(r.frames) == instances[2]
  {
  }

  /** What can happen next to the shared state: a capture iteration or a consumer read. */
  datatype Event<P> = Capture(frame: CapturedFrame<P>) | ClaimFrame | ClaimOrientation

  predicate CapturesWellFormed<P>(events: seq<Event<P>>)
  {
    forall i :: 0 <= i < |events| && events[i].Capture? ==> WellFormed(events[i].frame)
  }

  /** The state after `events` happened in order, each one atomically. */
  function Interleave<P>(d: DriverState<P>, events: seq<Event<P>>, update: (P, P) -> P): (r: DriverState<P>)
    requires Sized(d) && CapturesWellFormed(events)
    ensures Sized(r) && r.resolution == d.resolution
    decreases |events|
  {
    if |events| == 0 then d
    else
      var rest := events[1..];
      assert CapturesWellFormed(rest) by {
        forall i | 0 <= i < |rest| && rest[i].Capture? ensures WellFormed(rest[i].frame) { assert rest[i] == events[i + 1]; }
      }
      match events[0]
      case Capture(c) => Interleave(Step(d, c, update), rest, update)
      case ClaimFrame => Interleave(d.(frames := TripleBuffer.GetFrame(d.frames).0), rest, update)
      case ClaimOrientation => Interleave(d.(orientation := OrientationSlot.GetOrientation(d.orientation).0), rest, update)
  }

  /**
   Under any interleaving of capture iterations and consumer reads after the
   device opened, the roles stay a permutation of the three instances, the
   worker never writes the instance the consumer holds, and every frame the
   consumer claims has the negotiated resolution.
   */
  lemma InterleavingKeepsRolesAndResolution<P>(d: DriverState<P>, reported: Resolution, fill: Rgba,
                                               events: seq<Event<P>>, update: (P, P) -> P)
    requires TripleBuffer.Valid(d.frames) && CapturesWellFormed(events)
    ensures var r := Interleave(OpenDevice(d, reported, fill), events, update);
            && {r.frames.worker, r.frames.available, r.frames.published} == {0, 1, 2}
            && r.frames.worker != r.frames.published
            && SizedFor(TripleBuffer.ClaimedFrame(r.frames), reported)
  {
  }
}
