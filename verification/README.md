# Motion-detecting camera recorder: a Dafny model of its capture core

The system is a small Python service (`main.py`). A camera thread reads frames and compares
three consecutive frames to detect motion. While motion lasts it records the annotated frames to
video files, and appends each finished file's name to a log. It also publishes every annotated
frame as a JPEG to a `StreamingOutput` buffer, which HTTP viewers read as an MJPEG stream.

This project models the three pieces of logic in that thread and proves properties about them.
It also models the loop that connects the three pieces.

- **Image** (`image.dfy`): gray images as `seq<seq<int>>` and the OpenCV operations the
  detector uses:
  - `absdiff`;
  - `threshold` with `THRESH_BINARY`;
  - `bitwise_and`;
  - morphological opening with a 3x3 cross;
  - `countNonZero`;
  - the min/max of `np.nonzero`, as a bounding box.
- **Motion** (`motion.dfy`): the three-frame classification, with `thresh = 25` and
  `max_diff = 5`. It returns whether motion was detected and the box to draw.
- **Recorder** (`recorder.dfy`): the recording state machine, held in the loop's locals
  (`is_recording`, `out`/`filename`, `motion_start_time`, `motion_end_time`). Alongside it are the
  clips released so far and the log lines appended so far.
  - `Step` is one iteration and `Run` is a sequence of them.
  - `Shutdown` is the release at loop exit.
  - Time is in milliseconds, so the strict `> 1` second test becomes `> 1000`.
- **Streaming** (`streaming.dfy`): `StreamingOutput.write` over a model of `io.BytesIO`. It covers
  overwrite at the position, truncation at the position and zero-filling past the end.
  - `write` is proved to refine an abstract buffer: a write starting with the JPEG marker
    FF D8 publishes the bytes written since the previous such write.
  - Over a whole history of writes, the published frame matches a reference definition.
- **Capture** (`capture.dfy`): `capture_frames` as a method.
  - The camera is a sequence of reads, where `None` is a failed read.
  - The clock, the file names, the JPEG encoder and the Esc key are parameters.
  - The loop keeps the history of ticks and JPEGs it produced. Tick i classifies frames i, i+1
    and i+2.
  - The recorder state and the stream buffer are obtained from that history with `Run` and
    `Feed`. The loop never reads either of them, so this gives the same result as updating them
    inside the loop.
  - The exit cases are modelled as they occur in the code:
    - the camera did not open;
    - the second read failed;
    - a crash;
    - a failed encoding ending `while ret`;
    - Esc.

In several places the code does not do what one might expect of such a service. The model
follows the code:

- **Threshold test.** A pixel counts as changed when its difference is strictly greater than 25
  (`THRESH_BINARY`, main.py:253-254). It is not "at least 25".
- **Quiet frames are not written.** Only motion frames reach the video writer (main.py:279-280).
  One might expect every frame while recording to be written, including the quiet frames of the
  one-second grace period. They never are.
- **A failed read crashes the loop.** `c.copy()` runs before the `break` (main.py:241-244).
  A failed first read makes `cvtColor` fail. Either way the thread dies without reaching
  `out.release()` at main.py:306-307 (exit `Crashed`). One might expect a failed read to end the loop cleanly and close the
  recording.
- **Shutdown does not log.** Releasing an open writer at exit appends no log line
  (main.py:306-307).
- **Small blocks are missed.** One might expect a block of pixels that changed twice to be
  detected and boxed exactly. For a lone block at least one pixel away from the image edge, the
  3x3-cross opening (main.py:258-259) erases the block if it is less than three pixels high or
  wide, and strips its four corners otherwise. So such a block at least three pixels high and
  wide is detected exactly when it has more than 9 pixels; a thinner one never is, whatever its
  size, and a 3x3 square is not. Blocks touching the edge lose fewer pixels and are not covered
  by these statements:
  - `Motion.SquareOfNineMissed` gives the concrete 5x5 case;
  - `Motion.BlockMotion` states the general rule, and that a detected block is boxed by its own
    outline;
  - `Motion.ThinBlockMissed` states that a thinner block is never detected.
- **A failed video file still counts as a recording.** A `VideoWriter` that cannot open its file
  still returns an object that silently drops frames (main.py:275-280). The recorder stays in
  the recording state and logs the file name at the stop (main.py:288-293). It does not fall back
  to idle.
- **The stream lags one frame.** Because each JPEG is written whole, the published frame lags
  one JPEG behind, and the first publication is the empty byte string.

## Model

| member | source | states |
|---|---|---|
| Image.AndPixel | main.py:256 | Combining two 8-bit values gives an 8-bit value. On mask inputs (0 or 255) the result is 255 exactly when both inputs are 255, and 0 otherwise. |
| Image.OpenBelow | main.py:258-259 | Opening with the 3x3 cross never brightens a pixel and never makes it negative, so every pixel left nonzero by the opening was nonzero before it. |
| Image.CountPositive | main.py:261-262 | The nonzero count is positive exactly when the image has a nonzero pixel. |
| Image.CountMonotone | main.py:261 | An image whose nonzero pixels are all nonzero in a second image of the same shape has a count no larger than the second's. |
| Image.AllZeroCount | main.py:261 | An all-black image counts zero. |
| Image.BoundsSpec | main.py:263-265 | The min/max box of the nonzero coordinates exists exactly when some pixel is nonzero. It then encloses every nonzero pixel, and each of its four edges passes through one. |
| Image.ErodeBlock | main.py:258-259 | Eroding a lone block (away from the image edge) with the cross keeps exactly the block pixels whose four neighbours are in the block too: the block shrunk by one pixel on every side. |
| Image.OpenBlock | main.py:258-259 | Opening a lone block at least three pixels high and wide (away from the image edge) leaves it nonzero exactly on the block without its four corners. |
| Image.OpenThinBlock | main.py:258-259 | Opening erases a lone block (away from the image edge) less than three pixels high or wide completely. |
| Image.CountCornerless | main.py:261 | The count of a block of height h and width w without its corners is h * w - 4. |
| Image.CornerlessBounds | main.py:263-265 | The min/max box of a block without its corners is still the block's outline, because every edge keeps nonzero pixels. |
| Motion.RawMask | main.py:250-256 | Before opening, the mask has the frames' shape and holds only 0 and 255. A pixel is 255 exactly when its gray level changed by more than 25 from the first frame to the second and again from the second to the third. |
| Motion.Classify | main.py:258-265 | Motion is detected exactly when the opened mask has more than 5 nonzero pixels. A box is produced exactly when motion is detected, and it tightly encloses the opened mask's nonzero pixels. |
| Motion.OpenedPixelChanged | main.py:250-259 | Every nonzero pixel of the opened mask changed beyond the threshold in both consecutive differences. |
| Motion.DetectionNeedsChange | main.py:250-262 | A detection implies that more than 5 pixels changed in both differences even before the opening. |
| Motion.StillFrames | main.py:250-262 | Three identical frames give a count of 0, no detection and no box. |
| Motion.BlockMotion | main.py:250-265 | When the pixels that changed twice form a lone block at least 3x3 and at least one pixel away from the image edge, the count is h * w - 4. Motion is detected exactly when the block has more than 9 pixels, and the drawn box is then the block's outline. |
| Motion.ThinBlockMissed | main.py:250-262 | When the pixels that changed twice form a lone block less than three pixels high or wide and at least one pixel away from the image edge, the count is 0 and no motion is detected. |
| Motion.SquareOfNineMissed | main.py:250-262 | Black 5x5 frames around one with a white 3x3 middle square give a count of 5 and no detection, although all 9 pixels changed twice. |
| Recorder.Step | main.py:262-294 | One iteration adds at most one log line and never rewrites earlier ones; it adds a line exactly when a recording stops. A stop releases the open clip and logs its file name. Exactly the motion frames are written to a writer. A recording keeps its file until it stops. A motion frame always leaves the recorder recording with the quiet marker cleared. |
| Recorder.RunWritesMotionFrames | main.py:279-282 | Over any run of iterations, the frames that reach a video writer are exactly the motion frames, in order. |
| Recorder.RunKeepsLogMatched | main.py:287-293 | If the log lists exactly the released clips' names, in order, it still does after any run. So the number of log lines equals the number of stops. |
| Recorder.Shutdown | main.py:306-307 | Releasing at exit leaves the recorder idle and keeps the earlier released clips in order. It adds the open clip (if any) after them, writes no frame and appends no log line. |
| Recorder.ShutdownLeavesClipUnlogged | main.py:306-307 | A clip still open at exit is released but never named in the log. |
| Recorder.IdleQuietKeepsState | main.py:283-284 | While idle, a quiet frame changes nothing, including a stale quiet marker. |
| Recorder.IdleMotionStarts | main.py:270-282 | While idle, a motion frame opens a recording on the supplied fresh name holding that frame. It records the start time, clears the marker, and releases and logs nothing. |
| Recorder.StaleMarkerIgnored | main.py:270-282 | The quiet marker left behind by an earlier recording has no effect on how the next motion frame starts a recording. |
| Recorder.FirstQuietOnlyMarks | main.py:284-286 | While recording, the first quiet frame only sets the marker to the current time, so a recording never stops on it. |
| Recorder.QuietStopRule | main.py:284-288 | A quiet frame while recording stops the recording exactly when the marker is set and strictly more than 1000 ms have passed since it was set. |
| Recorder.IdleQuietRun | main.py:283-284 | Any number of quiet frames while idle change nothing. |
| Recorder.MarkedQuietRun | main.py:284-294 | While recording with the marker set, a run of quiet frames keeps the recording exactly while every frame comes within 1000 ms of the marker; the state is then unchanged. Otherwise the recording is released and logged exactly once. |
| Recorder.QuietAfterMotion | main.py:282-294 | After motion, a quiet run keeps the recording exactly while each later quiet frame is within 1000 ms of the first one. Otherwise it ends in one stop that releases and logs the clip. |
| Recorder.IsolatedMotionLogsOnce | main.py:262-294 | One motion frame from idle, followed by quiet frames reaching more than 1000 ms past the first quiet one, yields exactly one released clip holding that one frame and exactly one log line naming it. |
| Recorder.MotionRunKeepsRecording | main.py:270-282 | Sustained motion leaves the recorder recording with the marker cleared, with no release and no log line, on the same file if it was already recording. |
| Streaming.Truncate | main.py:128 | `truncate()` cuts the contents at the position, unless they are already no longer than it, and does not move the position. |
| Streaming.WriteAt | main.py:133 | `BytesIO.write` places the bytes at the position and returns their number. It keeps the bytes before and after them, zero-fills any gap past the old end, and moves the position past the written bytes. |
| Streaming.Write | main.py:125-133 | `write` returns the length of its argument. A write not starting with FF D8 leaves the published frame unchanged; one starting with FF D8 publishes exactly the bytes before the buffer's position. |
| Streaming.WriteRefines | main.py:125-133 | The concrete write refines the abstract buffer "bytes pending since the last FF D8 write, plus the published frame". Stale bytes past the position never leak into a published frame. |
| Streaming.FeedMatchesHistory | main.py:119-133 | After any history of writes to a new output, the pending bytes are those since the latest FF D8 write. The published frame is what was pending just before that write, or nothing before the first. |
| Streaming.NothingBeforeFirstSoi | main.py:121-133 | Nothing is published until a write starts with FF D8. |
| Streaming.WholeJpegsLagByOne | main.py:296-298 | After k whole-JPEG writes, the published frame is the empty byte string when k = 1 and the (k-1)-th JPEG when k >= 2. |
| Capture.WindowTick | main.py:261-268 | An iteration's motion verdict and drawn box are the classifier's, so the box tightly encloses the opened mask. The frame handed on is the newest camera frame, and the tick carries this iteration's clock reading and file name. |
| Capture.TickAt | main.py:238-301 | Because of the read-and-shift window, the k-th iteration classifies camera frames k, k+1 and k+2, with the clock and file name of iteration k. |
| Capture.CaptureTickAt | main.py:240-301 | For the real classifier, every window of three camera frames is a valid input, and the k-th tick is the classification of frames k, k+1 and k+2. |
| Capture.Iteration | main.py:246-298 | One pass appends the tick for the next window. The JPEG is kept exactly when encoding succeeded, which is also the value `while ret` tests next. |
| Capture.CaptureLoop | main.py:237-304 | The exit reason is fixed: no iteration when the second read fails; a crash when read 0 or the next read fails, with no Esc and every earlier encode successful; a failed encoding (the last tick then has no JPEG) with no Esc; or Esc after the last iteration and never before. Each tick classifies its window, and the JPEGs are the successful encodings in order. |
| Capture.Finish | main.py:306-307 | After the loop, the stream is the JPEG history fed in order. The recorder is the run of all ticks, shut down by `out.release()` unless the thread crashed before reaching it, and it has written exactly the motion frames. With JPEGs that all start with FF D8, the published frame lags one behind. |
| Capture.CaptureFrames | main.py:224-308 | No iteration runs when the camera does not open; once it does, none runs exactly when the second read fails. Otherwise the history is faithful to the camera, the clock, the names and the encoder, with the exit reason fixed as for the loop. The stream and recorder are the results of the histories, and `out.release()` at main.py:306-307 is reached unless the thread crashed. |

## Left out

- HTTP handling: the handlers, redirects, multipart MJPEG framing, the log page and `clear_log`
  (main.py:136-216) are socket and filesystem I/O through library classes.
- Threads and the `Condition`: the `with self.condition` / `notify_all` in `write` and the viewers'
  `wait` (main.py:123, 129-131, 161-163), `ThreadingMixIn` and the daemon thread (main.py:219-221,
  320-322) concern concurrency only. In this model, the published `frame` is the slot viewers read.
- The camera and OpenCV calls are parameters:
  - `VideoCapture`/`isOpened`/`read` are the `isOpened` flag and the `frames` sequence;
  - `imencode` is `encode`;
  - `waitKey(1) & 0xFF == 27` is `escape`;
  - `rectangle`/`putText` are the `Drawn` record of the frame and the box;
  - a `VideoWriter` is a `Clip`, i.e. its path and the frames written to it;
  - `cap.set` (main.py:229-230) is assumed effective: frames are 640x480.
- `cvtColor` (main.py:246-248) is left out: camera frames are taken as gray already, because the
  weighted colour-to-gray rounding is OpenCV-internal.
- `morphologyEx` (main.py:258-259) is modelled as erosion then dilation with the 3x3 cross,
  ignoring neighbours off the image. This is not claimed to be OpenCV's border rule.
- Time: `time.time()` floats become one natural-number millisecond reading per iteration. The
  source reads the clock separately at main.py:271, 286 and 287.
- `strftime` names (main.py:273-274) come from the `names` parameter.
- The log file (main.py:292-293) is a sequence of lines, each the file name and its newline.
- The `print` calls (main.py:277, 294) and `cap.release()` (main.py:308) are left out: they have
  no effect on the modelled state.
- Image.AndPixel: the contract is stated only for mask inputs (0 or 255) plus the 0..255 range,
  not as the full bitwise and of arbitrary 8-bit values. Only masks reach `bitwise_and` here.
- Capture.CaptureFrames: the recorder state and stream buffer are computed after the loop from
  its tick and JPEG history rather than interleaved with it. A crash is modelled as the loop
  ending without reaching `out.release()`, not as a propagated exception; what the runtime does
  with the writer object afterwards (its destructor may close the file) is not modelled.
- Motion.BlockMotion: stated only for blocks at least one pixel away from the image's edge,
  because near the edge the result depends on the opening's border rule, which this model does
  not claim to match; an edge block loses fewer pixels to the opening.
- Motion.ThinBlockMissed: stated only for blocks at least one pixel away from the image's edge,
  for the same reason; a thin block on the edge can survive the opening and be detected.
- Image.ErodeBlock, Image.OpenBlock, Image.OpenThinBlock: stated only for blocks at least one
  pixel away from the image's edge, for the same reason.
