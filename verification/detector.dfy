/** The frame coordinator between the camera and the barcode recognizer
    (`QrDetector`). It holds at most one waiting frame and at most one frame
    under recognition, drops frames that arrive within the minimum interval
    of the last admitted one, and closes the frames it lets go of.

    Every event is a pure function from the coordinator's state to an
    Outcome: the next state, the frames closed (in order), the frame handed to
    the recognizer, if any, and the strings passed on to the host. */
module Detector {
  import opened Wrappers

  /** A camera frame, known to the coordinator only by its identity. */
  type FrameId = nat

  /** A recognized barcode; the host receives its raw value. */
  datatype Barcode = Barcode(rawValue: string)

  datatype State = State(
    timeoutMillis: int,                 // minimum interval between admissions
    latestFrame: Option<FrameId>,       // the frame waiting for the recognizer
    processingFrame: Option<FrameId>,   // the frame last taken for recognition
    latestTime: Option<int>             // clock reading of the last admission
  )

  datatype Outcome = Outcome(
    next: State,
    closed: seq<FrameId>,
    submitted: Option<FrameId>,
    emitted: seq<string>
  )

  /** The constructor: an absent interval means no minimum interval. */
  function Create(timeoutMillis: Option<int>): (s: State)
    ensures timeoutMillis.None? ==> s.timeoutMillis == 0
    ensures timeoutMillis.Some? ==> s.timeoutMillis == timeoutMillis.value
    ensures s.latestFrame.None? && s.processingFrame.None? && s.latestTime.None?
  {
    State(timeoutMillis.GetOr(0), None, None, None)
  }

  /** The admission time a frame arriving at `now` is compared against: the
      clock reading of the last admission, or `now` itself when no frame has
      been seen yet. */
  function LastAdmission(s: State, now: int): int {
    s.latestTime.GetOr(now)
  }

  /** A frame arriving at `now` is admitted only when strictly more than the
      minimum interval has passed since the last admission. */
  predicate Admits(s: State, now: int) {
    now - s.timeoutMillis > LastAdmission(s, now)
  }

  /** `processLatest`: close the frame whose recognition is over, take the
      waiting frame for recognition and, unless turning it into an image
      fails, hand it to the recognizer. */
  function ProcessLatest(s: State, imageOk: bool): (o: Outcome)
    ensures o.closed == s.processingFrame.ToSeq()
    ensures o.next.processingFrame == s.latestFrame && o.next.latestFrame.None?
    ensures o.next.timeoutMillis == s.timeoutMillis && o.next.latestTime == s.latestTime
    ensures o.submitted.Some? <==> imageOk && s.latestFrame.Some?
    ensures o.submitted.Some? ==> o.submitted == s.latestFrame
    ensures o.emitted == []
  {
    var next := s.(processingFrame := s.latestFrame, latestFrame := None);
    var submitted := if imageOk then s.latestFrame else None;
    Outcome(next, s.processingFrame.ToSeq(), submitted, [])
  }

  /** `detect`: a new frame from the camera arrives at `now`. */
  function Detect(s: State, frame: FrameId, now: int, imageOk: bool): (o: Outcome)
    // the first call records `now` before comparing, so the interval check
    // always sees some admission time
    ensures o.next.latestTime.Some?
    ensures o.next.timeoutMillis == s.timeoutMillis
    ensures o.emitted == []
    // throttled: the frame is closed and nothing else changes
    ensures !Admits(s, now) ==>
      && o.closed == [frame]
      && o.submitted.None?
      && o.next.latestFrame == s.latestFrame
      && o.next.processingFrame == s.processingFrame
      && o.next.latestTime == Some(LastAdmission(s, now))
    // admitted: the clock reading is recorded and the waiting frame replaced
    ensures Admits(s, now) ==>
      && o.next.latestTime == Some(now)
      && o.closed == s.latestFrame.ToSeq()
    // admitted while a recognition is under way: the frame waits
    ensures Admits(s, now) && s.processingFrame.Some? ==>
      && o.next.latestFrame == Some(frame)
      && o.next.processingFrame == s.processingFrame
      && o.submitted.None?
    // admitted while idle: the frame goes straight to the recognizer
    ensures Admits(s, now) && s.processingFrame.None? ==>
      && o.next.latestFrame.None?
      && o.next.processingFrame == Some(frame)
      && (o.submitted.Some? <==> imageOk)
      && (o.submitted.Some? ==> o.submitted.value == frame)
    // with a non-negative interval, admission times never go backwards
    ensures s.timeoutMillis >= 0 && s.latestTime.Some? ==> o.next.latestTime.value >= s.latestTime.value
  {
    var last := LastAdmission(s, now);
    if now - s.timeoutMillis > last then
      var admitted := s.(latestTime := Some(now), latestFrame := Some(frame));
      var replaced := s.latestFrame.ToSeq();
      if s.processingFrame.None? then
        var p := ProcessLatest(admitted, imageOk);
        Outcome(p.next, replaced + p.closed, p.submitted, [])
      else
        Outcome(admitted, replaced, None, [])
    else
      Outcome(s.(latestTime := Some(last)), [frame], None, [])
  }

  /** The raw values of a list of barcodes, in list order. */
  function RawValues(barcodes: seq<Barcode>): (vs: seq<string>)
    ensures |vs| == |barcodes|
    ensures forall i :: 0 <= i < |barcodes| ==> vs[i] == barcodes[i].rawValue
  {
    if barcodes == [] then []
    else [barcodes[0].rawValue] + RawValues(barcodes[1..])
  }

  /** `onSuccess`: the recognizer reports the barcodes it found. Each raw
      value goes to the host in order, then the recognized frame is closed
      and the waiting frame, if any, takes its place. */
  function OnSuccess(s: State, barcodes: seq<Barcode>, imageOk: bool): (o: Outcome)
    ensures |o.emitted| == |barcodes|
    ensures forall i :: 0 <= i < |barcodes| ==> o.emitted[i] == barcodes[i].rawValue
    ensures o.closed == s.processingFrame.ToSeq()
    ensures o.next.processingFrame == s.latestFrame && o.next.latestFrame.None?
    ensures o.next.timeoutMillis == s.timeoutMillis && o.next.latestTime == s.latestTime
    ensures o.submitted.Some? <==> imageOk && s.latestFrame.Some?
    ensures o.submitted.Some? ==> o.submitted == s.latestFrame
  {
    var p := ProcessLatest(s, imageOk);
    p.(emitted := RawValues(barcodes))
  }

  /** `onFailure`: the recognizer reports an error. It is only logged: no
      frame is closed, none is promoted and the state stays as it was. */
  function OnFailure(s: State): (o: Outcome)
    ensures o.next == s
    ensures o.closed == [] && o.submitted.None? && o.emitted == []
  {
    Outcome(s, [], None, [])
  }

  /** The first frame is compared against its own arrival time, so with a
      non-negative interval it is always dropped (closed); the clock reading
      is kept as the admission time. */
  lemma FirstFrameDropped(s: State, frame: FrameId, now: int, imageOk: bool)
    requires s.latestTime.None? && s.timeoutMillis >= 0
    ensures var o := Detect(s, frame, now, imageOk);
      o.closed == [frame] && o.submitted.None? && o.next.latestTime == Some(now)
  {
  }
}
