# qr_mobile_vision camera adapter — Dafny model

This project models the Android side of the `qr_mobile_vision` plugin: the
part that sits between the camera preview and the barcode recognizer.

- **Detector / DetectorTrace** (`QrDetector`): the frame coordinator. The
  camera delivers frames faster than the recognizer can handle them. The
  coordinator keeps at most one waiting frame (`latestFrame`) and at most one
  frame under recognition (`processingFrame`). It drops frames that arrive
  within `timeoutMillis` of the last admitted one. A newer waiting frame
  replaces and closes the older one. On success it passes every barcode's raw
  value to the host, closes the recognized frame and promotes the waiting one.
  Each event (`detect`, `onSuccess`, `onFailure`) is a pure function that
  returns the next state, the frames closed, the frame handed to the
  recognizer and the strings emitted. `DetectorTrace` drives these functions
  with the camera and the recognizer as the environment, and proves
  invariants over every run.
- **PreviewSize** (`getAppropriateSize`): picks the preview size from the
  camera's offered list for a requested size and sensor orientation.
- **Orientation** (`getFirebaseOrientation`, `getOrientation`): the
  compensation table, the rotation tag handed to the recognizer and the
  orientation reported to the host.
- **FocusMode**: the preference chain `start` uses to pick a focus mode.
- **CameraFrame** (`QrCameraC1.Frame`): closing a frame drops its bytes.
- **JavaArith**: Java's truncating `%`, used where the source applies `%`.

The model follows the code as written:

- A recognizer failure (`onFailure`) only logs. It neither closes the
  recognized frame nor promotes the waiting one. The coordinator then holds a
  frame as under recognition forever and never submits again. `FailureStalls`
  and `StalledForever` prove this. A frame that cannot be turned into an image
  has the same effect (`ImageFailureStalls`).
- On the first `detect`, `latestTime` is set to the current time before the
  interval check. So with one clock reading and a non-negative interval the first
  frame is always dropped (`FirstFrameDropped`). A single frame followed by success therefore
  emits nothing; `FirstFrameThenHello` shows the two-frame run that does emit.
- The coordinator has no shutdown operation.

Frames are opaque ids to the coordinator. The clock reading `now` and the
success of `toImage` (`imageOk`) are parameters of the events.

## Model

| member | source | states |
|---|---|---|
| Detector.Create | android/src/main/java/com/github/rmtmckenzie/qrmobilevision/QrDetector.java:50-58 | an absent interval becomes 0 and a given one is kept; the coordinator starts with no frames and no admission time |
| Detector.Detect | android/src/main/java/com/github/rmtmckenzie/qrmobilevision/QrDetector.java:60-74 | a throttled frame is closed and nothing else changes except the first clock reading being recorded; an admitted frame records `now`, closes the previous waiting frame, and either waits (recognizer busy) or goes straight to the recognizer when idle, submitted exactly when it converts to an image; with a non-negative interval the admission time never decreases |
| Detector.ProcessLatest | android/src/main/java/com/github/rmtmckenzie/qrmobilevision/QrDetector.java:76-98 | the finished frame is closed, the waiting frame becomes the recognized one, the waiting slot empties, and the frame is submitted iff it exists and converts to an image |
| Detector.RawValues | android/src/main/java/com/github/rmtmckenzie/qrmobilevision/QrDetector.java:102-104 | one string per barcode, each the barcode's raw value, in list order |
| Detector.OnSuccess | android/src/main/java/com/github/rmtmckenzie/qrmobilevision/QrDetector.java:100-106 | every raw value is emitted in order, the recognized frame is closed and the waiting frame is promoted (and submitted when it converts to an image) |
| Detector.OnFailure | android/src/main/java/com/github/rmtmckenzie/qrmobilevision/QrDetector.java:108-111 | a failure changes no state, closes nothing, submits nothing and emits nothing |
| Detector.FirstFrameDropped | android/src/main/java/com/github/rmtmckenzie/qrmobilevision/QrDetector.java:61-63 | with a non-negative interval the first frame ever seen is closed, not submitted, and its arrival time becomes the admission time |
| DetectorTrace.InitInv | android/src/main/java/com/github/rmtmckenzie/qrmobilevision/QrDetector.java:50-58 | a new coordinator satisfies the coordinator invariant |
| DetectorTrace.StepPreservesInv | android/src/main/java/com/github/rmtmckenzie/qrmobilevision/QrDetector.java:60-111 | every event keeps the invariant: a frame waits only while another is recognized, the two are distinct, an outstanding recognition is of the recognized frame, no frame is closed twice, and every delivered frame is held or closed, never both |
| DetectorTrace.RunPreservesInv | android/src/main/java/com/github/rmtmckenzie/qrmobilevision/QrDetector.java:60-111 | the invariant holds after every run of events from a state where it held |
| DetectorTrace.CloseAtMostOnce | android/src/main/java/com/github/rmtmckenzie/qrmobilevision/QrDetector.java:66-79 | over any run from a new coordinator no frame is closed twice, every delivered frame is either closed or still held, and the waiting and recognized frames differ |
| DetectorTrace.SingleFlight | android/src/main/java/com/github/rmtmckenzie/qrmobilevision/QrDetector.java:68-82 | a frame arriving while a recognition is outstanding is never submitted, and the frame under recognition has never been closed |
| DetectorTrace.NewestWins | android/src/main/java/com/github/rmtmckenzie/qrmobilevision/QrDetector.java:63-70 | of two frames admitted during one recognition, the first is closed when the second arrives and is never submitted; the second waits |
| DetectorTrace.IdleAdmissionSubmits | android/src/main/java/com/github/rmtmckenzie/qrmobilevision/QrDetector.java:68-82 | a frame admitted while idle that converts to an image is handed to the recognizer at once, nothing waits and nothing is closed |
| DetectorTrace.SuccessPromotes | android/src/main/java/com/github/rmtmckenzie/qrmobilevision/QrDetector.java:100-106 | a success whose promoted frame converts to an image closes exactly the frame that was recognized, hands over the waiting frame or leaves the coordinator idle, and appends the raw values to what the host received |
| DetectorTrace.FailureStalls | android/src/main/java/com/github/rmtmckenzie/qrmobilevision/QrDetector.java:108-111 | after a failure the coordinator state is unchanged and a frame stays held as recognized with no recognition outstanding |
| DetectorTrace.ImageFailureStalls | android/src/main/java/com/github/rmtmckenzie/qrmobilevision/QrDetector.java:85-93 | a frame promoted while idle that fails to convert is not submitted and leaves the coordinator stalled |
| DetectorTrace.SuccessImageFailureStalls | android/src/main/java/com/github/rmtmckenzie/qrmobilevision/QrDetector.java:85-105 | a success whose waiting frame fails to convert to an image closes the recognized frame, submits nothing and leaves the coordinator stalled |
| DetectorTrace.StalledForever | android/src/main/java/com/github/rmtmckenzie/qrmobilevision/QrDetector.java:68 | once stalled, every later run stays stalled with the same recognized frame, so nothing is submitted again |
| DetectorTrace.FirstFrameThenHello | android/src/main/java/com/github/rmtmckenzie/qrmobilevision/QrDetector.java:60-106 | with interval 0, frames at times 0 and 1 and a success with one barcode: the first frame is dropped, the second recognized, the host receives the value once, both frames are closed once and the coordinator ends idle |
| Orientation.TagOfDegrees | android/src/main/java/com/github/rmtmckenzie/qrmobilevision/QrCameraC1.java:61-73 | selecting by a tag's own angle gives back that tag |
| Orientation.TagOf | android/src/main/java/com/github/rmtmckenzie/qrmobilevision/QrCameraC1.java:61-77 | a right angle selects the tag of that angle; any other value falls back to tag 0 |
| Orientation.Compensation | android/src/main/java/com/github/rmtmckenzie/qrmobilevision/QrCameraC1.java:37-44 | the table value is a right angle in [0, 360), and 0 for a rotation the table does not hold |
| Orientation.CompensationIsQuarterTurns | android/src/main/java/com/github/rmtmckenzie/qrmobilevision/QrCameraC1.java:39-44 | the table {0→90, 1→0, 2→270, 3→180} equals 90 − 90·rotation modulo 360 |
| Orientation.FirebaseOrientation | android/src/main/java/com/github/rmtmckenzie/qrmobilevision/QrCameraC1.java:54-79 | the tag's angle is (table[rotation] + sensor + 270) % 360 when that is a right angle, and tag 0 otherwise |
| Orientation.CompensationIsRightAngle | android/src/main/java/com/github/rmtmckenzie/qrmobilevision/QrCameraC1.java:57-77 | for a sensor at 0, 90, 180 or 270 degrees the computed angle is always a right angle, so the error branch is unreachable for every display rotation |
| Orientation.FirebaseOrientationIsExact | android/src/main/java/com/github/rmtmckenzie/qrmobilevision/QrCameraC1.java:57-77 | for a right-angle sensor and display rotation 0 to 3 the tag's angle is the sensor angle turned back a quarter turn per rotation step, (sensor + 360 − 90·rotation) % 360 |
| Orientation.DisplayRotationsDistinguished | android/src/main/java/com/github/rmtmckenzie/qrmobilevision/QrCameraC1.java:57-77 | for a right-angle sensor the four display rotations give four different tags |
| Orientation.QuarterTurnExample | android/src/main/java/com/github/rmtmckenzie/qrmobilevision/QrCameraC1.java:41 | display rotation 1 with a 90-degree sensor computes 0 and gives tag 0 |
| Orientation.DisplayOrientation | android/src/main/java/com/github/rmtmckenzie/qrmobilevision/QrCameraC1.java:187-190 | the reported orientation lies in [0, 360) for any sensor angle from −270 up |
| Orientation.DisplayOrientationInverse | android/src/main/java/com/github/rmtmckenzie/qrmobilevision/QrCameraC1.java:187-190 | turning the reported orientation forward a quarter turn gives back the sensor angle |
| Orientation.FirebaseOrientationFromDisplay | android/src/main/java/com/github/rmtmckenzie/qrmobilevision/QrCameraC1.java:57 | the frame tag's angle is the reported orientation plus the display compensation, modulo 360 |
| FocusMode.ChooseFocusMode | android/src/main/java/com/github/rmtmckenzie/qrmobilevision/QrCameraC1.java:98-110 | the chosen mode is supported and in the preference list, every earlier preference is unsupported, and no mode is chosen iff none of the four is supported |
| FocusMode.FirstSupportedIsFirst | android/src/main/java/com/github/rmtmckenzie/qrmobilevision/QrCameraC1.java:100-110 | the mode found is preceded in the preference order only by unsupported modes |
| FocusMode.ChooseFocusModeIsFirstSupported | android/src/main/java/com/github/rmtmckenzie/qrmobilevision/QrCameraC1.java:100-110 | the `if`/`else` chain equals the first of auto, continuous-picture, continuous-video, edof found in the supported list |
| PreviewSize.EffectiveTarget | android/src/main/java/com/github/rmtmckenzie/qrmobilevision/QrCameraC1.java:218-249 | the requested width and height are compared as given when the sensor orientation is a multiple of 180, and swapped otherwise |
| PreviewSize.FirstExceeding | android/src/main/java/com/github/rmtmckenzie/qrmobilevision/QrCameraC1.java:219-224 | the index is in range, no earlier size exceeds the target, and the size there exceeds it unless it is the last |
| PreviewSize.CoveredPrefix | android/src/main/java/com/github/rmtmckenzie/qrmobilevision/QrCameraC1.java:236-241 | every size before the index covers the target and the size at the index, if any, does not |
| PreviewSize.AppropriateSize | android/src/main/java/com/github/rmtmckenzie/qrmobilevision/QrCameraC1.java:206-253 | the selected size is an element of the offered list, and a one-element list yields its element |
| PreviewSize.AscendingSelection | android/src/main/java/com/github/rmtmckenzie/qrmobilevision/QrCameraC1.java:216-232 | when the second size is strictly wider or taller than the first, the result is the first size strictly larger than the (possibly swapped) target in both dimensions, or the last size if none is |
| PreviewSize.DescendingSelection | android/src/main/java/com/github/rmtmckenzie/qrmobilevision/QrCameraC1.java:233-249 | otherwise the result is the last size of the longest prefix whose sizes all reach the target, or the first size when it already falls short |
| PreviewSize.OrientationOnlySwapsTarget | android/src/main/java/com/github/rmtmckenzie/qrmobilevision/QrCameraC1.java:218-249 | a rotated sensor selects what an upright one selects for the swapped request; an upright sensor selects as at orientation 0 |
| PreviewSize.AscendingExample | android/src/main/java/com/github/rmtmckenzie/qrmobilevision/QrCameraC1.java:216-224 | from 320x240, 640x480, 1280x720 with request 800x600 and sensor 0 the result is 1280x720 |
| PreviewSize.DescendingRotatedExample | android/src/main/java/com/github/rmtmckenzie/qrmobilevision/QrCameraC1.java:242-249 | from 1280x720, 640x480, 320x240 with request 480x640 and sensor 90 the result is 640x480 |
| PreviewSize.GetAppropriateSize | android/src/main/java/com/github/rmtmckenzie/qrmobilevision/QrCameraC1.java:206-253 | the source's loops with their early exits compute exactly the selection rule |
| JavaArith.Rem | android/src/main/java/com/github/rmtmckenzie/qrmobilevision/QrCameraC1.java:218 | Java's `%` for a positive divisor: the result has the sign of the dividend, lies strictly within one divisor of zero, and differs from the dividend by a multiple of the divisor |
| CameraFrame.Close | android/src/main/java/com/github/rmtmckenzie/qrmobilevision/QrCameraC1.java:171-174 | a closed frame has no bytes and keeps its description |
| CameraFrame.CloseIdempotent | android/src/main/java/com/github/rmtmckenzie/qrmobilevision/QrCameraC1.java:171-174 | closing a frame twice is the same as closing it once |

## Left out

- Camera opening, camera parameters, the preview texture, the preview callback that builds frames, the autofocus re-arm loop, `start` and `stop`: Android hardware I/O. Only the focus-mode choice and the preview-size choice inside `start` are modelled.
- The barcode recognizer, `FirebaseVisionImage` and metadata building: foreign code. `detectInImage` is the `submitted` frame of an outcome, and `toImage` is the `imageOk` parameter.
- `getWidth` and `getHeight`: they read live camera parameters and only swap width and height.
- Logging, including the error logged for a bad rotation value.
- The wall clock: `now` is a parameter of each frame event. The source reads the clock up to three times in one `detect`; the model uses one reading.
- Thread safety: `detect` is unsynchronized and `processLatest` is synchronized. Every event is treated as atomic and the events as sequential.
- Detector.Detect: `now - timeoutMillis` is computed on unbounded integers; Java's 64-bit wrap-around would need values beyond 2^63.
- Orientation.FirebaseOrientation: the 32-bit `int` sum is unbounded here; it could only overflow for sensor angles near 2^31.
- Detector.OnSuccess: a barcode's raw value is always a string; a null raw value passed to the host is not modelled.
- A shutdown operation: the source has none.
