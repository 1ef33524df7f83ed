/** The capture thread, `capture_frames` (main.py:224-308): a sliding window
    of three frames, motion classification, the recording state machine, and
    publication of each encoded frame through `StreamingOutput.write`.
    The camera, the clock, the file-name generator, the JPEG encoder and the
    key poll are foreign to the model and come in as parameters: the camera as
    the sequence of `cap.read()` results (None for a failed read; reads past
    its end fail too), the others as functions of the iteration number or of
    the annotated frame. Frames are taken as already converted to gray. */
module Capture {
  import opened Common
  import opened Image
  import opened Motion
  import opened Recorder
  import opened Streaming

  /** Resolution requested from the camera (main.py:229-230). */
  const Width := 640
  const Height := 480

  /** A gray frame at the requested resolution. */
  ghost predicate IsFrame(g: Grid) {
    |g| == Height && (forall r :: 0 <= r < |g| ==> |g[r]| == Width) && IsGray(g)
  }

  /** The `k`-th `cap.read()` result; reads past the end of the sequence fail. */
  function ReadAt(frames: seq<Option<Grid>>, k: nat): Option<Grid> {
    if k < |frames| then frames[k] else None
  }

  /** The copy `draw` of the newest frame, with the bounding rectangle and the
      "Motion detected!!" label drawn on it when motion was found. */
  datatype Drawn = Drawn(frame: Grid, box: Option<Box>)

  /** Why the capture thread ended. */
  datatype Exit =
    | NotOpened      // cap.isOpened() was false
    | NoSecondFrame  // the second initial read failed, so `while ret` never ran
    | Crashed        // a failed read reached c.copy() or cvtColor: an uncaught exception
    | EncodeFailed   // imencode failed, its `ret` ends the loop
    | EscapePressed  // waitKey returned Esc

  /** What one iteration hands to the recorder: the window's verdict, the
      clock, the name a new file would get, and the annotated newest frame. */
  function WindowTick(a: Grid, b: Grid, c: Grid, now: nat, name: string): (t: Tick<Drawn>)
    requires Window(a, b, c)
    ensures t.motion == Classify(a, b, c).detected && t.frame.frame == c
    ensures t.motion <==> t.frame.box.Some?
    ensures t.frame.box == Classify(a, b, c).box && t.now == now && t.name == name
  {
    var ev := Classify(a, b, c);
    Tick(ev.detected, now, name, Drawn(c, ev.box))
  }

  /** Three frames at the requested resolution form a classifiable window. */
  lemma FramesAlign(a: Grid, b: Grid, c: Grid)
    requires IsFrame(a) && IsFrame(b) && IsFrame(c)
    ensures Window(a, b, c)
  {
  }

  /** The classification step of one iteration, as a value: the loop below
      is stated for any step that accepts every window of camera frames, and
      the capture thread instantiates it with WindowTick. */
  type Classifier = (Grid, Grid, Grid, nat, string) --> Tick<Drawn>

  ghost predicate Accepts(tickOf: Classifier) {
    forall a, b, c, now, name :: IsFrame(a) && IsFrame(b) && IsFrame(c) ==> tickOf.requires(a, b, c, now, name)
  }

  lemma WindowTickAccepts()
    ensures Accepts(WindowTick)
  {
    forall a, b, c, now, name | IsFrame(a) && IsFrame(b) && IsFrame(c)
      ensures WindowTick.requires(a, b, c, now, name)
    {
      FramesAlign(a, b, c);
    }
  }

  /** Every read that succeeded delivered a frame at the requested resolution. */
  ghost predicate CameraFrames(frames: seq<Option<Grid>>) {
    forall k :: 0 <= k < |frames| && frames[k].Some? ==> IsFrame(frames[k].value)
  }

  /** The reads of the first n windows all succeeded. */
  ghost predicate ReadsOk(frames: seq<Option<Grid>>, n: nat) {
    n == 0 || (n + 2 <= |frames| && forall k :: 0 <= k < n + 2 ==> frames[k].Some?)
  }

  /** Reference definition of the recorder's input: the ticks of the first n
      iterations, iteration i classifying the frames read i-th, (i+1)-th and
      (i+2)-th at the i-th clock reading. */
  ghost function Ticks(frames: seq<Option<Grid>>, tickOf: Classifier, clock: nat -> nat, names: nat -> string, n: nat)
    : (ts: seq<Tick<Drawn>>)
    requires CameraFrames(frames) && ReadsOk(frames, n) && Accepts(tickOf)
    ensures |ts| == n
  {
    if n == 0 then []
    else
      var i := n - 1;
      Ticks(frames, tickOf, clock, names, i) + [tickOf(frames[i].value, frames[i + 1].value, frames[i + 2].value, clock(i), names(i))]
  }

  /** The k-th tick is the classification of the window of three reads
      starting at k. */
  lemma {:induction false} TickAt(frames: seq<Option<Grid>>, tickOf: Classifier, clock: nat -> nat, names: nat -> string,
                                  n: nat, k: nat)
    requires CameraFrames(frames) && ReadsOk(frames, n) && Accepts(tickOf) && k < n
    ensures IsFrame(frames[k].value) && IsFrame(frames[k + 1].value) && IsFrame(frames[k + 2].value)
    ensures Ticks(frames, tickOf, clock, names, n)[k]
            == tickOf(frames[k].value, frames[k + 1].value, frames[k + 2].value, clock(k), names(k))
  {
    if k < n - 1 {
      TickAt(frames, tickOf, clock, names, n - 1, k);
    }
  }

  /** In the capture thread, the k-th tick reports motion exactly when the
      window of reads k, k+1 and k+2 is classified as motion, carries its
      box, and carries the newest frame of the window. */
  lemma CaptureTickAt(frames: seq<Option<Grid>>, clock: nat -> nat, names: nat -> string, n: nat, k: nat)
    requires CameraFrames(frames) && ReadsOk(frames, n) && k < n
    ensures Window(frames[k].value, frames[k + 1].value, frames[k + 2].value)
    ensures Accepts(WindowTick)
    ensures Ticks(frames, WindowTick, clock, names, n)[k]
            == WindowTick(frames[k].value, frames[k + 1].value, frames[k + 2].value, clock(k), names(k))
  {
    WindowTickAccepts();
    TickAt(frames, WindowTick, clock, names, n, k);
    FramesAlign(frames[k].value, frames[k + 1].value, frames[k + 2].value);
  }

  /** What the loop has produced so far: the ticks handed to the recorder
      and the JPEGs written to the output, oldest first. The recorder and the
      output are functions of these (Recorder.Run, Streaming.Feed): nothing
      the loop reads depends on them. */
  datatype History = History(ticks: seq<Tick<Drawn>>, jpegs: seq<Bytes>)

  /** The history after n iterations is what the source computes: the ticks
      are those of the first n windows, each JPEG the encoder produced was
      written in order, and only the latest iteration may have failed to
      encode. The tick equation is stated for the n that equals the number
      of ticks, so that the recursive definition of Ticks is unfolded only
      where a proof names it. */
  ghost predicate Faithful(frames: seq<Option<Grid>>, tickOf: Classifier, clock: nat -> nat, names: nat -> string,
                           encode: Drawn -> Option<Bytes>, h: History)
    requires CameraFrames(frames) && Accepts(tickOf)
  {
    && ReadsOk(frames, |h.ticks|)
    && (forall n :: n == |h.ticks| ==> h.ticks == Ticks(frames, tickOf, clock, names, n))
    && |h.jpegs| <= |h.ticks| <= |h.jpegs| + 1
    && (forall k :: 0 <= k < |h.jpegs| ==> encode(h.ticks[k].frame) == Some(h.jpegs[k]))
    && (|h.ticks| == |h.jpegs| + 1 ==> encode(h.ticks[|h.ticks| - 1].frame).None?)
  }

  /** One pass of the loop body once all three reads succeeded: classify,
      encode, and record the tick and a successful encoding (main.py:244-298).
      `ret` is imencode's success flag. */
  method Iteration(frames: seq<Option<Grid>>, tickOf: Classifier, clock: nat -> nat, names: nat -> string,
                   encode: Drawn -> Option<Bytes>, h: History, a: Grid, b: Grid, c: Grid)
    returns (h': History, ret: bool)
    requires CameraFrames(frames) && Accepts(tickOf)
    requires Faithful(frames, tickOf, clock, names, encode, h) && |h.jpegs| == |h.ticks|
    requires ReadAt(frames, |h.ticks|) == Some(a) && ReadAt(frames, |h.ticks| + 1) == Some(b)
    requires ReadAt(frames, |h.ticks| + 2) == Some(c)
    ensures Faithful(frames, tickOf, clock, names, encode, h') && |h'.ticks| == |h.ticks| + 1
    ensures ret <==> |h'.jpegs| == |h'.ticks|
  {
    var i := |h.ticks|;
    assert ReadsOk(frames, i + 1);
    var tick := tickOf(a, b, c, clock(i), names(i));
    var jpeg := encode(tick.frame);
    h' := History(h.ticks + [tick], if jpeg.Some? then h.jpegs + [jpeg.value] else h.jpegs);
    ret := jpeg.Some?;
  }

  /** The `while ret` loop of the capture thread, for any classification step.
      It ends without a single iteration when the second read fails; it
      crashes on a failed read of the newest frame (or of the very first
      one); otherwise it ends on Esc or on a failed encoding. */
  method CaptureLoop(frames: seq<Option<Grid>>, tickOf: Classifier, clock: nat -> nat, names: nat -> string,
                     encode: Drawn -> Option<Bytes>, escape: nat -> bool)
    returns (exit: Exit, h: History)
    requires CameraFrames(frames) && Accepts(tickOf)
    ensures exit in {NoSecondFrame, Crashed, EncodeFailed, EscapePressed}
    ensures exit == NoSecondFrame <==> ReadAt(frames, 1).None?
    ensures exit == NoSecondFrame ==> h.ticks == []
    ensures exit == Crashed ==> ReadAt(frames, 0).None? || ReadAt(frames, |h.ticks| + 2).None?
    ensures exit == EscapePressed ==> |h.ticks| > 0 && escape(|h.ticks| - 1)
    ensures exit == EncodeFailed ==> |h.ticks| == |h.jpegs| + 1
    ensures exit == Crashed ==> |h.ticks| == |h.jpegs|
    ensures forall i :: 0 <= i < |h.ticks| - 1 ==> !escape(i)
    ensures exit in {Crashed, EncodeFailed} ==> forall i :: 0 <= i < |h.ticks| ==> !escape(i)
    ensures Faithful(frames, tickOf, clock, names, encode, h)
  {
    h := History([], []);
    var a := ReadAt(frames, 0);
    var b := ReadAt(frames, 1);
    if b.None? {
      return NoSecondFrame, h;
    }
    var i := 0;
    while true
      invariant i == |h.ticks| == |h.jpegs| && Faithful(frames, tickOf, clock, names, encode, h)
      invariant a == ReadAt(frames, i) && b == ReadAt(frames, i + 1) && b.Some? && (i > 0 ==> a.Some?)
      invariant ReadAt(frames, 1).Some?
      invariant forall k :: 0 <= k < i ==> !escape(k)
      decreases |frames| - i
    {
      var c := ReadAt(frames, i + 2);
      // `draw = c.copy()` raises on a failed read, and cvtColor raises on a
      // failed first read, before anything else of the iteration happens.
      if c.None? || a.None? {
        return Crashed, h;
      }
      var ret;
      h, ret := Iteration(frames, tickOf, clock, names, encode, h, a.value, b.value, c.value);
      a, b := b, c;
      i := i + 1;
      if escape(i - 1) {
        return EscapePressed, h;
      }
      if !ret {
        return EncodeFailed, h;
      }
    }
  }

  /** What follows the loop: the recorder has stepped through every tick
      and, unless the thread crashed, `out.release()` closes an open
      recording without a log line (main.py:306-307); the output has received
      every JPEG. Frames reached a video writer exactly on motion ticks, and
      when every JPEG starts with FF D8 the published frame lags one JPEG
      behind. */
  method Finish(crashed: bool, h: History) returns (rec: RecState<Drawn>, out: StreamingOutput)
    ensures out == Feed(NewOutput(), h.jpegs)
    ensures rec == if crashed then Run(Init(), h.ticks) else Shutdown(Run(Init(), h.ticks))
    ensures !crashed ==> rec.mode.Idle?
    ensures Written(rec) == MotionFrames(h.ticks)
    ensures |h.jpegs| >= 1 && (forall i :: 0 <= i < |h.jpegs| ==> StartsWithSoi(h.jpegs[i])) ==>
              out.frame == Some(if |h.jpegs| == 1 then [] else h.jpegs[|h.jpegs| - 2])
  {
    out := Feed(NewOutput(), h.jpegs);
    rec := Run(Init(), h.ticks);
    RunWritesMotionFrames(Init(), h.ticks);
    if !crashed {
      rec := Shutdown(rec);
    }
    if |h.jpegs| >= 1 && (forall k :: 0 <= k < |h.jpegs| ==> StartsWithSoi(h.jpegs[k])) {
      WholeJpegsLagByOne(h.jpegs);
    }
  }

  /** The capture thread.
      - It ends without a single iteration when the camera is not open or
        the second read fails; it crashes on a failed read of the newest
        frame (or of the very first one); otherwise it ends on Esc or on a
        failed encoding.
      - The history is faithful: the i-th iteration classified the frames
        read i-th, (i+1)-th and (i+2)-th (`a = b; b = c`) with WindowTick,
        and every encoded frame went to the output.
      - The recorder has seen every tick in order; unless the thread
        crashed before reaching it, `out.release()` releases an open
        recording at the end, with no log line, and no recording is left open.
      - Frames reached a video writer exactly on motion iterations.
      - When every JPEG starts with FF D8, the published frame lags one
        JPEG behind. */
  method CaptureFrames(isOpened: bool, frames: seq<Option<Grid>>, clock: nat -> nat, names: nat -> string,
                       encode: Drawn -> Option<Bytes>, escape: nat -> bool)
    returns (exit: Exit, h: History, rec: RecState<Drawn>, out: StreamingOutput)
    requires CameraFrames(frames)
    ensures exit == NotOpened <==> !isOpened
    ensures exit in {NotOpened, NoSecondFrame} ==> h.ticks == []
    ensures isOpened ==> (exit == NoSecondFrame <==> ReadAt(frames, 1).None?)
    ensures exit == Crashed ==> ReadAt(frames, 0).None? || ReadAt(frames, |h.ticks| + 2).None?
    ensures exit == EscapePressed ==> |h.ticks| > 0 && escape(|h.ticks| - 1)
    ensures exit == EncodeFailed ==> |h.ticks| == |h.jpegs| + 1
    ensures exit == Crashed ==> |h.ticks| == |h.jpegs|
    ensures forall i :: 0 <= i < |h.ticks| - 1 ==> !escape(i)
    ensures exit in {Crashed, EncodeFailed} ==> forall i :: 0 <= i < |h.ticks| ==> !escape(i)
    ensures Accepts(WindowTick) && Faithful(frames, WindowTick, clock, names, encode, h)
    ensures out == Feed(NewOutput(), h.jpegs)
    ensures rec == if exit == Crashed then Run(Init(), h.ticks) else Shutdown(Run(Init(), h.ticks))
    ensures exit != Crashed ==> rec.mode.Idle?
  {
    WindowTickAccepts();
    if !isOpened {
      exit, h := NotOpened, History([], []);
    } else {
      exit, h := CaptureLoop(frames, WindowTick, clock, names, encode, escape);
    }
    rec, out := Finish(exit == Crashed, h);
  }
}
