# Frame and pose handoff of the AugmentedUnreality OpenCV driver

The OpenCV driver of the AugmentedUnreality plugin runs a capture thread that
reads camera frames, optionally estimates the camera pose from fiducial
markers, converts each frame from the camera's BGR layout into the engine's
RGBA layout and hands it to the consumer through a rotation of three frame
instances. The pose is handed over through a single slot with a "new data"
flag. This project models the sequential meaning of each of those operations,
one atomic step at a time, and proves what the concurrent design relies on:

- the three roles (worker, available, published) always name three different
  instances, so the worker never writes the instance the consumer holds;
- a claim with no new frame changes nothing, two claims in a row return the
  same instance, and after several publishes the claim returns the latest;
- storing a pose always raises the flag, reading it always clears it and
  leaves the pose as it was;
- a capture iteration with a frame of the wrong size changes nothing; one with
  the right size publishes exactly once, and stores the pose only when
  tracking is on and markers were detected;
- the pixel copy writes the three colour channels of the first X*Y pixels and
  nothing else;
- a device that fails to open runs no iteration; one that opens sizes all
  three instances for the reported resolution, which every claimed frame has.

Modules: `Pixels` (pixel formats and the copy loop), `VideoFrame` (frame and
resolution), `TripleBuffer` (role rotation, generic in the frame content),
`OrientationSlot` (pose slot, generic in the pose type), `Driver` (the
driver's shared state and its initialisation), `CaptureWorker` (one loop
iteration and the thread function over a finite stream of captured frames)
and `Session` (properties of whole runs and of runs interleaved with
consumer reads).

The camera is an input: whether it opened, the resolution it reports, and a
finite sequence of captured frames, each a record of width, height, BGR
pixels, and the marker tracker's answer (detected or not, and the pose). The
tracker receives the same image that is converted afterwards and may draw into
it, so a record's pixels are the image as it stands after marker detection;
every statement below about "the colours of a frame" means those pixels. The
end of the sequence stands for the stop request. The base driver's pose
update is a function parameter `update(current, measurement)`. The pixels of
a frame right after it is re-sized are not determined by the driver and are
a parameter `fill`.

## Model

| member | source | states |
|---|---|---|
| `Pixels.CopyColour` | Plugins/AugmentedUnreality/Source/AugmentedUnreality/AURDriverOpenCV.cpp:256-258 | copying a camera pixel into a frame pixel sets the frame pixel's red, green and blue to the camera pixel's by name and keeps its alpha |
| `Pixels.Converted` | Plugins/AugmentedUnreality/Source/AugmentedUnreality/AURDriverOpenCV.cpp:250-259 | the converted image has the destination's length; its first X*Y pixels carry the camera pixel's red, green and blue with alpha kept; every later pixel is unchanged |
| `Pixels.ConvertedFromIsUnique` | Plugins/AugmentedUnreality/Source/AugmentedUnreality/AURDriverOpenCV.cpp:251-259 | that per-channel description holds of an image exactly when the image is the converted one, so it determines the result completely |
| `Pixels.ConvertBgrToRgba` | Plugins/AugmentedUnreality/Source/AugmentedUnreality/AURDriverOpenCV.cpp:245-259 | the pixel loop copies R, G and B by name for every index below the pixel count, never writes alpha, and touches no index at or beyond the count |
| `VideoFrame.SetResolution` | Plugins/AugmentedUnreality/Source/AugmentedUnreality/AURDriverOpenCV.cpp:189-191 | a re-sized frame records the new resolution and holds exactly width*height pixels |
| `TripleBuffer.Initialize` | Plugins/AugmentedUnreality/Source/AugmentedUnreality/AURDriverOpenCV.cpp:38-47 | initialisation points worker, available and published at instances 0, 1 and 2, which are distinct, with no new frame flagged |
| `TripleBuffer.ValidRolesArePermutation` | Plugins/AugmentedUnreality/Source/AugmentedUnreality/AURDriverOpenCV.cpp:45-47 | in every valid state the three roles are a permutation of the instances {0, 1, 2} |
| `TripleBuffer.Publish` | Plugins/AugmentedUnreality/Source/AugmentedUnreality/AURDriverOpenCV.cpp:245-267 | publishing writes the worker instance, exchanges worker and available, raises the flag, keeps the roles distinct and leaves the published instance and its content untouched |
| `TripleBuffer.GetFrame` | Plugins/AugmentedUnreality/Source/AugmentedUnreality/AURDriverOpenCV.cpp:114-130 | with the flag raised, the old available instance becomes the published one, the old published becomes available, and the flag is cleared; with the flag clear nothing changes; either way the published instance is returned and the roles stay distinct |
| `TripleBuffer.NewFrameFlagLifecycle` | Plugins/AugmentedUnreality/Source/AugmentedUnreality/AURDriverOpenCV.cpp:132-135 | `IsNewFrameAvailable` reports true after every publish and false after every claim |
| `TripleBuffer.GetFrameTwiceIsStable` | Plugins/AugmentedUnreality/Source/AugmentedUnreality/AURDriverOpenCV.cpp:114-135 | two claims with no publish between them return the same instance and content, and `IsNewFrameAvailable` reports no new frame after the first |
| `TripleBuffer.PublishAll` | Plugins/AugmentedUnreality/Source/AugmentedUnreality/AURDriverOpenCV.cpp:261-267 | any number of publishes in a row keep the roles distinct |
| `TripleBuffer.PublishAllLeavesLastAvailable` | Plugins/AugmentedUnreality/Source/AugmentedUnreality/AURDriverOpenCV.cpp:264-266 | after one or more publishes the flag is raised and the available instance holds the content of the last publish |
| `TripleBuffer.PublishAllKeepsPublished` | Plugins/AugmentedUnreality/Source/AugmentedUnreality/AURDriverOpenCV.cpp:248-266 | publishes never change which instance is published or what it holds |
| `TripleBuffer.LatestPublishWins` | Plugins/AugmentedUnreality/Source/AugmentedUnreality/AURDriverOpenCV.cpp:117-129 | after N >= 1 publishes with no claim between them, the claim returns the content of the Nth |
| `OrientationSlot.Initialize` | Plugins/AugmentedUnreality/Source/AugmentedUnreality/AURDriverOpenCV.cpp:38-40 | initialisation clears the new-orientation flag and keeps the held pose |
| `OrientationSlot.StoreNewOrientation` | Plugins/AugmentedUnreality/Source/AugmentedUnreality/AURDriverOpenCV.cpp:52-59 | storing always raises the new-orientation flag and the held pose becomes the base driver's update of the old pose by the measurement |
| `OrientationSlot.GetOrientation` | Plugins/AugmentedUnreality/Source/AugmentedUnreality/AURDriverOpenCV.cpp:142-150 | reading always clears the flag, returns the held pose and does not change it |
| `OrientationSlot.NewOrientationFlagLifecycle` | Plugins/AugmentedUnreality/Source/AugmentedUnreality/AURDriverOpenCV.cpp:137-140 | `IsNewOrientationAvailable` reports true after every store and false after every read |
| `OrientationSlot.GetOrientationTwiceIsStable` | Plugins/AugmentedUnreality/Source/AugmentedUnreality/AURDriverOpenCV.cpp:137-150 | two reads with no store between them return equal poses, and `IsNewOrientationAvailable` reports no new orientation after the first |
| `OrientationSlot.LastStoreWins` | Plugins/AugmentedUnreality/Source/AugmentedUnreality/AURDriverOpenCV.cpp:52-59 | after storing A then B the read returns the update applied for B (B itself when the update overwrites), and a second read returns it again |
| `Driver.Initialize` | Plugins/AugmentedUnreality/Source/AugmentedUnreality/AURDriverOpenCV.cpp:34-50 | driver initialisation clears both flags, assigns the roles to instances 0, 1, 2 and keeps the held pose |
| `CaptureWorker.OpenDevice` | Plugins/AugmentedUnreality/Source/AugmentedUnreality/AURDriverOpenCV.cpp:178-194 | on a successful open the reported resolution becomes the driver's and all three instances are sized for it; roles, flags and pose are untouched |
| `CaptureWorker.Step` | Plugins/AugmentedUnreality/Source/AugmentedUnreality/AURDriverOpenCV.cpp:214-268 | a frame whose width or height differs from the negotiated resolution (`MatchesResolution` false) changes nothing; a frame of the right size causes exactly one worker/available exchange, raises the frame flag, leaves the published instance alone, moves the old available instance with its content into the worker role and puts the converted pixels in the new available instance; the pose is stored exactly when tracking is on and markers were detected, otherwise unchanged |
| `CaptureWorker.RunFrames` | Plugins/AugmentedUnreality/Source/AugmentedUnreality/AURDriverOpenCV.cpp:211-269 | every iteration of the loop keeps the roles distinct and all three instances sized for the negotiated resolution |
| `CaptureWorker.Run` | Plugins/AugmentedUnreality/Source/AugmentedUnreality/AURDriverOpenCV.cpp:177-211 | when the device fails to open no iteration runs and the driver is unchanged; when it opens every instance carries the reported resolution throughout |
| `CaptureWorker.CaptureLoop` | Plugins/AugmentedUnreality/Source/AugmentedUnreality/AURDriverOpenCV.cpp:171-277 | the thread function written as the driver's loop (bContinue, size check, pose store, pixel copy, publish) computes exactly the iteration-by-iteration run |
| `Session.RunFramesLeavesLastMatchAvailable` | Plugins/AugmentedUnreality/Source/AugmentedUnreality/AURDriverOpenCV.cpp:216-267 | after a run the available instance shows the colours of the last frame of the right size (as the tracker left its image) and a new frame is flagged; when no frame had the right size the instances and roles are exactly as before |
| `Session.ClaimAfterRunShowsLastMatchingFrame` | Plugins/AugmentedUnreality/Source/AugmentedUnreality/AURDriverOpenCV.cpp:117-129 | after a run on an opened device with at least one frame of the right size, the consumer's claim returns a frame of the negotiated resolution with the colours of the last such frame |
| `Session.RunFramesKeepsOrientationWithoutDetections` | Plugins/AugmentedUnreality/Source/AugmentedUnreality/AURDriverOpenCV.cpp:228-239 | with tracking off, or no markers detected in any frame, a run leaves the pose and its flag as they were |
| `Session.FailedOpenPublishesNothing` | Plugins/AugmentedUnreality/Source/AugmentedUnreality/AURDriverOpenCV.cpp:195-199 | a device that fails to open right after initialisation publishes nothing: both flags stay clear and the consumer keeps getting instance 2 |
| `Session.Interleave` | Plugins/AugmentedUnreality/Source/AugmentedUnreality/AURDriverOpenCV.cpp:114-268 | any interleaving of capture iterations, frame claims and pose reads keeps the roles distinct and all instances sized for the negotiated resolution |
| `Session.InterleavingKeepsRolesAndResolution` | Plugins/AugmentedUnreality/Source/AugmentedUnreality/AURDriverOpenCV.cpp:120-123 | after any interleaving the roles are a permutation of {0, 1, 2}, the worker instance is never the published one, and the claimed frame has the negotiated resolution |

## Left out

- Threads, locks and cancellation (`FRunnableThread`, `Init`, `Stop`, `Shutdown`, `InitializeWorker`, `WaitForCompletion`): every operation is taken as atomic, so the model says nothing about mutual exclusion. The driver does not provide it everywhere: lines 55 and 262 of AURDriverOpenCV.cpp construct an unnamed temporary `FScopeLock`, which unlocks at once, so `StoreNewOrientation` and the worker's publish exchange run unlocked; and `GetFrame` reads `bNewFrameReady` before taking the lock (117-120).
- OpenCV device I/O (`cv::VideoCapture` open, set, get, read, release; `cv::Mat`): replaced by the `deviceOpened` flag, the reported resolution and the sequence of captured-frame records. The conversion of the device's reported double values to integers is not modelled; resolutions are natural numbers.
- Code the driver calls but does not define: `Tracker.DetectMarkers` is the `markersDetected`/`cameraTransform` part of each captured frame, and whatever it draws into the image is already in the frame's `pixels`; `Super::StoreNewOrientation` is the `update` parameter; `FAURVideoFrame::SetResolution` is modelled only by what the driver relies on (the image holds width*height pixels), with unspecified pixel contents given as `fill`; `Super::Initialize` and `Tracker.SetSettings` are not part of this model.
- `LoadCalibration` (61-89): file loads, logging and floating-point field of view and aspect ratio. It always tries the fallback path after the primary one; whether a successful fallback overrides the primary depends on `LoadFromFile`, which is not part of this model. The aspect ratio computed there with integer division (88) and the one recomputed in floating point after opening (187) are left out with it.
- CaptureWorker.OpenDevice: all three instances are re-sized with the same `fill`, so right after an open they hold identical images; the real pixel contents after `SetResolution` are not visible in the driver and no property depends on them.
- The int32 width of `pixel_count` (250): the model multiplies unbounded naturals, so it does not model wrap-around for resolutions whose pixel count exceeds 2^31 - 1.
- Logging, `DiagnosticText`, `GetDiagnosticText`, `Status`, the initial `CapturedFrame` built in the worker's constructor (overwritten by the first read) and the unused calibration-board locals (207-209).
