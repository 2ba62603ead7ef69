/** The coordinator driven by its environment: the camera delivers fresh
    frames, and the recognizer answers exactly once, with success or failure,
    for each frame handed to it. A World records, next to the coordinator's
    state, the frame the recognizer is working on, every frame delivered so
    far, every close in order, and everything passed on to the host. */
module DetectorTrace {
  import opened Wrappers
  import opened Detector

  datatype Event =
    | FrameArrives(frame: FrameId, now: int, imageOk: bool)
    | RecognitionSucceeds(barcodes: seq<Barcode>, imageOk: bool)
    | RecognitionFails

  datatype World = World(
    detector: State,
    recognizer: Option<FrameId>,   // the frame whose recognition is outstanding
    seen: set<FrameId>,            // every frame the camera has delivered
    closed: seq<FrameId>,          // every close, in order
    emitted: seq<string>           // every string passed on to the host
  )

  function Init(timeoutMillis: Option<int>): World {
    World(Create(timeoutMillis), None, {}, [], [])
  }

  /** The camera builds a new frame for every preview callback; the
      recognizer only answers while a recognition is outstanding. */
  predicate Enabled(w: World, e: Event) {
    match e
    case FrameArrives(f, _, _) => f !in w.seen
    case _ => w.recognizer.Some?
  }

  function EventOutcome(w: World, e: Event): Outcome {
    match e
    case FrameArrives(f, now, ok) => Detect(w.detector, f, now, ok)
    case RecognitionSucceeds(bs, ok) => OnSuccess(w.detector, bs, ok)
    case RecognitionFails => OnFailure(w.detector)
  }

  function Step(w: World, e: Event): World
    requires Enabled(w, e)
  {
    var o := EventOutcome(w, e);
    // an answer ends the outstanding recognition; a submission starts one
    var recognizer :=
      if o.submitted.Some? then o.submitted
      else if e.FrameArrives? then w.recognizer
      else None;
    var seen := if e.FrameArrives? then w.seen + {e.frame} else w.seen;
    World(o.next, recognizer, seen, w.closed + o.closed, w.emitted + o.emitted)
  }

  /** Runs a sequence of events; None when one of them cannot happen. */
  function Run(w: World, es: seq<Event>): Option<World>
    decreases |es|
  {
    if es == [] then Some(w)
    else if Enabled(w, es[0]) then Run(Step(w, es[0]), es[1..])
    else None
  }

  function Elems(s: seq<FrameId>): set<FrameId> {
    set x | x in s
  }

  predicate NoDuplicates(s: seq<FrameId>) {
    forall i, j :: 0 <= i < j < |s| ==> s[i] != s[j]
  }

  /** The frames the coordinator currently holds. */
  function Held(d: State): set<FrameId> {
    ToSet(d.latestFrame) + ToSet(d.processingFrame)
  }

  /** The coordinator's invariant:
      - a frame only waits while another is being recognized;
      - the waiting and the recognized frame are different frames;
      - an outstanding recognition is of the frame in `processingFrame`;
      - no frame has been closed twice;
      - every delivered frame is either held or closed, never both. */
  predicate Inv(w: World) {
    var d := w.detector;
    && (d.processingFrame.None? ==> d.latestFrame.None?)
    && (d.latestFrame.Some? && d.processingFrame.Some? ==> d.latestFrame.value != d.processingFrame.value)
    && (w.recognizer.Some? ==> w.recognizer == d.processingFrame)
    && NoDuplicates(w.closed)
    && Held(d) !! Elems(w.closed)
    && w.seen == Elems(w.closed) + Held(d)
  }

  lemma ElemsAppend(s: seq<FrameId>, t: seq<FrameId>)
    ensures Elems(s + t) == Elems(s) + Elems(t)
  {
  }

  lemma {:induction false} NoDuplicatesAppend(s: seq<FrameId>, t: seq<FrameId>)
    requires NoDuplicates(s) && NoDuplicates(t) && Elems(s) !! Elems(t)
    ensures NoDuplicates(s + t)
  {
    forall i, j | 0 <= i < j < |s + t|
      ensures (s + t)[i] != (s + t)[j]
    {
      if i < |s| && j >= |s| {
        assert (s + t)[i] in Elems(s);
        assert (s + t)[j] == t[j - |s|] && t[j - |s|] in Elems(t);
      }
    }
  }

  lemma InitInv(timeoutMillis: Option<int>)
    ensures Inv(Init(timeoutMillis))
  {
  }

  /** Closing `extra` (frames held but not yet closed, or the fresh frame)
      keeps the close log free of duplicates. */
  lemma {:induction false} CloseFresh(closed: seq<FrameId>, extra: seq<FrameId>)
    requires NoDuplicates(closed) && |extra| <= 1 && Elems(extra) !! Elems(closed)
    ensures NoDuplicates(closed + extra)
    ensures Elems(closed + extra) == Elems(closed) + Elems(extra)
  {
    ElemsAppend(closed, extra);
    NoDuplicatesAppend(closed, extra);
  }

  lemma ThrottledStepPreservesInv(w: World, f: FrameId, now: int, ok: bool)
    requires Inv(w) && Enabled(w, FrameArrives(f, now, ok)) && !Admits(w.detector, now)
    ensures Inv(Step(w, FrameArrives(f, now, ok)))
  {
  }

  lemma {:induction false} QueuedStepPreservesInv(w: World, f: FrameId, now: int, ok: bool)
    requires Inv(w) && Enabled(w, FrameArrives(f, now, ok)) && Admits(w.detector, now)
    requires w.detector.processingFrame.Some?
    ensures Inv(Step(w, FrameArrives(f, now, ok)))
  {
    var d := w.detector;
    var replaced := d.latestFrame.ToSeq();
    var d' := d.(latestTime := Some(now), latestFrame := Some(f));
    assert Detect(d, f, now, ok) == Outcome(d', replaced, None, []);
    var w' := World(d', w.recognizer, w.seen + {f}, w.closed + replaced, w.emitted + []);
    assert Step(w, FrameArrives(f, now, ok)) == w';
    assert f !in Elems(w.closed) && f !in Held(d);
    CloseFresh(w.closed, replaced);
    assert Held(d) == Elems(replaced) + ToSet(d.processingFrame);
    assert Held(d') == {f} + ToSet(d.processingFrame);
  }

  lemma IdleStepPreservesInv(w: World, f: FrameId, now: int, ok: bool)
    requires Inv(w) && Enabled(w, FrameArrives(f, now, ok)) && Admits(w.detector, now)
    requires w.detector.processingFrame.None?
    ensures Inv(Step(w, FrameArrives(f, now, ok)))
  {
  }

  lemma {:induction false} FrameStepPreservesInv(w: World, f: FrameId, now: int, ok: bool)
    requires Inv(w) && Enabled(w, FrameArrives(f, now, ok))
    ensures Inv(Step(w, FrameArrives(f, now, ok)))
  {
    if !Admits(w.detector, now) {
      ThrottledStepPreservesInv(w, f, now, ok);
    } else if w.detector.processingFrame.Some? {
      QueuedStepPreservesInv(w, f, now, ok);
    } else {
      IdleStepPreservesInv(w, f, now, ok);
    }
  }

  lemma SuccessStepPreservesInv(w: World, bs: seq<Barcode>, ok: bool)
    requires Inv(w) && Enabled(w, RecognitionSucceeds(bs, ok))
    ensures Inv(Step(w, RecognitionSucceeds(bs, ok)))
  {
    CloseFresh(w.closed, w.detector.processingFrame.ToSeq());
  }

  /** Every event the environment can produce keeps the invariant. */
  lemma {:induction false} StepPreservesInv(w: World, e: Event)
    requires Inv(w) && Enabled(w, e)
    ensures Inv(Step(w, e))
  {
    match e {
      case FrameArrives(f, now, ok) => FrameStepPreservesInv(w, f, now, ok);
      case RecognitionSucceeds(bs, ok) => SuccessStepPreservesInv(w, bs, ok);
      case RecognitionFails => assert w.closed + [] == w.closed;
    }
  }

  /** The invariant holds after any run from any state where it held. */
  lemma {:induction false} RunPreservesInv(w: World, es: seq<Event>)
    requires Inv(w)
    ensures Run(w, es).Some? ==> Inv(Run(w, es).value)
    decreases |es|
  {
    if es != [] && Enabled(w, es[0]) {
      StepPreservesInv(w, es[0]);
      RunPreservesInv(Step(w, es[0]), es[1..]);
    }
  }

  /** Over any run from a fresh coordinator, no frame is closed twice, and
      every frame the camera delivered is either closed once or still held,
      with the waiting and the recognized frame distinct. */
  lemma CloseAtMostOnce(timeoutMillis: Option<int>, es: seq<Event>)
    requires Run(Init(timeoutMillis), es).Some?
    ensures var w := Run(Init(timeoutMillis), es).value;
      && NoDuplicates(w.closed)
      && w.seen == Elems(w.closed) + Held(w.detector)
      && Elems(w.closed) !! Held(w.detector)
      && (w.detector.latestFrame.Some? && w.detector.processingFrame.Some? ==>
            w.detector.latestFrame != w.detector.processingFrame)
  {
    InitInv(timeoutMillis);
    RunPreservesInv(Init(timeoutMillis), es);
  }

  /** Single flight: a frame arriving while a recognition is outstanding is
      never handed to the recognizer; and whatever is handed over has not
      been closed by the coordinator. */
  lemma SingleFlight(w: World, e: Event)
    requires Inv(w) && Enabled(w, e)
    ensures e.FrameArrives? && w.recognizer.Some? ==> EventOutcome(w, e).submitted.None?
    ensures Step(w, e).recognizer.Some? ==> Step(w, e).recognizer.value !in Elems(Step(w, e).closed)
  {
  }

  /** While the recognizer is busy, of two frames admitted one after the
      other the first is closed when the second arrives and is never handed
      to the recognizer; the second waits in its place. */
  lemma NewestWins(w: World, f1: FrameId, t1: int, ok1: bool, f2: FrameId, t2: int, ok2: bool)
    requires Inv(w) && w.detector.processingFrame.Some?
    requires Enabled(w, FrameArrives(f1, t1, ok1)) && Admits(w.detector, t1)
    requires Enabled(Step(w, FrameArrives(f1, t1, ok1)), FrameArrives(f2, t2, ok2))
    requires Admits(Step(w, FrameArrives(f1, t1, ok1)).detector, t2)
    ensures var w1 := Step(w, FrameArrives(f1, t1, ok1));
      && EventOutcome(w, FrameArrives(f1, t1, ok1)).submitted.None?
      && EventOutcome(w1, FrameArrives(f2, t2, ok2)).submitted.None?
      && EventOutcome(w1, FrameArrives(f2, t2, ok2)).closed == [f1]
      && Step(w1, FrameArrives(f2, t2, ok2)).detector.latestFrame == Some(f2)
      && Step(w1, FrameArrives(f2, t2, ok2)).detector.processingFrame == w.detector.processingFrame
  {
  }

  /** A frame admitted while nothing is being recognized goes straight to
      the recognizer (when it converts to an image) and nothing waits. */
  lemma IdleAdmissionSubmits(w: World, f: FrameId, now: int)
    requires Inv(w) && w.detector.processingFrame.None?
    requires Enabled(w, FrameArrives(f, now, true)) && Admits(w.detector, now)
    ensures Step(w, FrameArrives(f, now, true)).recognizer == Some(f)
    ensures Step(w, FrameArrives(f, now, true)).detector.latestFrame.None?
    ensures EventOutcome(w, FrameArrives(f, now, true)).closed == []
  {
  }

  /** A successful recognition closes the recognized frame exactly then and
      hands over the waiting frame, or leaves the coordinator idle when no
      frame waits. */
  lemma SuccessPromotes(w: World, bs: seq<Barcode>)
    requires Inv(w) && Enabled(w, RecognitionSucceeds(bs, true))
    ensures var w' := Step(w, RecognitionSucceeds(bs, true));
      && EventOutcome(w, RecognitionSucceeds(bs, true)).closed == [w.recognizer.value]
      && w'.recognizer == w.detector.latestFrame
      && w'.detector.latestFrame.None?
      && (w.detector.latestFrame.None? ==> w'.detector.processingFrame.None?)
      && w'.emitted == w.emitted + RawValues(bs)
  {
  }

  /** The coordinator holds a frame as under recognition, but no recognition
      is outstanding, so no answer will ever come. */
  predicate Stalled(w: World) {
    Inv(w) && w.detector.processingFrame.Some? && w.recognizer.None?
  }

  /** A failed recognition leaves the coordinator stalled: `onFailure`
      neither releases the recognized frame nor promotes the waiting one. */
  lemma FailureStalls(w: World)
    requires Inv(w) && Enabled(w, RecognitionFails)
    ensures Stalled(Step(w, RecognitionFails))
    ensures Step(w, RecognitionFails).detector == w.detector
  {
  }

  /** A frame taken for recognition that cannot be turned into an image is
      never submitted, and also leaves the coordinator stalled. */
  lemma ImageFailureStalls(w: World, f: FrameId, now: int)
    requires Inv(w) && w.recognizer.None? && w.detector.processingFrame.None?
    requires Enabled(w, FrameArrives(f, now, false)) && Admits(w.detector, now)
    ensures Stalled(Step(w, FrameArrives(f, now, false)))
  {
  }

  /** A success whose waiting frame cannot be turned into an image closes
      the recognized frame, submits nothing, and leaves the coordinator
      stalled with the waiting frame held as recognized. */
  lemma SuccessImageFailureStalls(w: World, bs: seq<Barcode>)
    requires Inv(w) && Enabled(w, RecognitionSucceeds(bs, false)) && w.detector.latestFrame.Some?
    ensures Stalled(Step(w, RecognitionSucceeds(bs, false)))
    ensures EventOutcome(w, RecognitionSucceeds(bs, false)).closed == [w.recognizer.value]
    ensures Step(w, RecognitionSucceeds(bs, false)).detector.processingFrame == w.detector.latestFrame
  {
    SuccessStepPreservesInv(w, bs, false);
  }

  /** Once stalled, the coordinator stays stalled whatever follows: later
      frames only replace the waiting frame, nothing is ever handed to the
      recognizer again, and the stuck frame is never closed. */
  lemma {:induction false} StalledForever(w: World, es: seq<Event>)
    requires Stalled(w)
    requires Run(w, es).Some?
    ensures Stalled(Run(w, es).value)
    ensures Run(w, es).value.detector.processingFrame == w.detector.processingFrame
    decreases |es|
  {
    if es != [] {
      StepPreservesInv(w, es[0]);
      StalledForever(Step(w, es[0]), es[1..]);
    }
  }

  /** With no minimum interval, a first frame at time 0 is dropped, a second
      at time 1 is recognized, and its one barcode reaches the host; both
      frames end up closed once and the coordinator idle. */
  lemma FirstFrameThenHello()
    ensures var es := [FrameArrives(1, 0, true), FrameArrives(2, 1, true),
                       RecognitionSucceeds([Barcode("HELLO")], true)];
      && Run(Init(Some(0)), es).Some?
      && Run(Init(Some(0)), es).value.closed == [1, 2]
      && Run(Init(Some(0)), es).value.emitted == ["HELLO"]
      && Run(Init(Some(0)), es).value.recognizer.None?
      && Run(Init(Some(0)), es).value.detector.latestFrame.None?
      && Run(Init(Some(0)), es).value.detector.processingFrame.None?
  {
  }
}
