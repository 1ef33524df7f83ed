/** The recording state machine of the capture loop (main.py:232-294, 306-307).
    Each iteration feeds it one motion verdict, the current time, the file name
    a new recording would get, and the annotated frame. Frames reach the open
    video writer only on motion; a recording stops on a quiet frame that comes
    more than one second after the first quiet frame since the last motion.
    Times are natural-number milliseconds; the log is the sequence of lines
    this process appended to the log file; a clip is a video file's name and
    the frames written to it. */
module Recorder {
  import opened Common

  /** Quiet time, in milliseconds, that must be strictly exceeded before a
      recording stops (`time.time() - motion_end_time > 1`). */
  const Hysteresis := 1000

  /** A video file: its path and the frames written to it, oldest first. */
  datatype Clip<F> = Clip(path: string, frames: seq<F>)

  /** `is_recording` together with the writer `out`: the two always agree,
      because `cv2.VideoWriter(...)` always yields an object and `out` is set
      back to None only where `is_recording` becomes False. */
  datatype Mode<F> = Idle | Recording(clip: Clip<F>)

  /** The loop's recording locals plus what they leave behind on disk.
      `startedAt` is `motion_start_time` (assigned, never read);
      `quietSince` is `motion_end_time`, the "quiet since" marker;
      `closed` are the released video files, in release order;
      `log` are the lines appended to the log file, in order. */
  datatype RecState<F> = RecState(
    mode: Mode<F>,
    startedAt: Option<nat>,
    quietSince: Option<nat>,
    closed: seq<Clip<F>>,
    log: seq<string>)

  /** One loop iteration's input: the motion verdict, the clock, the name
      `strftime` would give a new file now, and the annotated frame `draw`. */
  datatype Tick<F> = Tick(motion: bool, now: nat, name: string, frame: F)

  /** State before the first iteration (main.py:232-235). */
  function Init<F>(): RecState<F> {
    RecState(Idle, None, None, [], [])
  }

  /** The log line written when a recording stops. */
  function LogLine(path: string): string {
    path + "\n"
  }

  /** All frames of a sequence of clips, clip after clip. */
  function Flatten<F>(cs: seq<Clip<F>>): seq<F> {
    if cs == [] then [] else Flatten(cs[..|cs| - 1]) + cs[|cs| - 1].frames
  }

  /** Every frame that reached a video writer: those of the released files,
      then those of the open one. */
  function Written<F>(s: RecState<F>): seq<F> {
    Flatten(s.closed) + (if s.mode.Recording? then s.mode.clip.frames else [])
  }

  /** The log lists, line by line and in order, exactly the released files. */
  ghost predicate LogMatchesClips<F>(s: RecState<F>) {
    |s.log| == |s.closed| && forall i :: 0 <= i < |s.log| ==> s.log[i] == LogLine(s.closed[i].path)
  }

  lemma FlattenSnoc<F>(cs: seq<Clip<F>>, c: Clip<F>)
    ensures Flatten(cs + [c]) == Flatten(cs) + c.frames
  {
    assert (cs + [c])[..|cs|] == cs;
  }

  /** One iteration of the recording logic (main.py:262-294).
      - The log only ever grows, by at most one line, and it grows exactly
        when a recording stops; that line names the stopped file.
      - The frame reaches a writer exactly when the iteration saw motion.
      - A recording stops only on a quiet frame, with the marker set and
        strictly more than Hysteresis milliseconds elapsed since it.
      - A recording that continues keeps its file. */
  function Step<F>(s: RecState<F>, t: Tick<F>): (s': RecState<F>)
    ensures |s.log| <= |s'.log| <= |s.log| + 1 && s'.log[..|s.log|] == s.log
    ensures |s'.log| == |s.log| + 1 <==> s.mode.Recording? && s'.mode.Idle?
    ensures s.mode.Recording? && s'.mode.Idle? ==>
              s'.log[|s.log|] == LogLine(s.mode.clip.path) && s'.closed == s.closed + [s.mode.clip]
    ensures !(s.mode.Recording? && s'.mode.Idle?) ==> s'.closed == s.closed
    ensures Written(s') == Written(s) + (if t.motion then [t.frame] else [])
    ensures s.mode.Recording? && s'.mode.Idle? ==>
              !t.motion && s.quietSince.Some? && t.now - s.quietSince.value > Hysteresis
    ensures s.mode.Recording? && s'.mode.Recording? ==> s'.mode.clip.path == s.mode.clip.path
    ensures t.motion ==> s'.mode.Recording? && s'.quietSince.None?
  {
    if t.motion then
      // Start a recording if none is open, write the frame, clear the marker.
      var clip := if s.mode.Idle? then Clip(t.name, []) else s.mode.clip;
      var started := if s.mode.Idle? then Some(t.now) else s.startedAt;
      RecState(Recording(clip.(frames := clip.frames + [t.frame])), started, None, s.closed, s.log)
    else if s.mode.Idle? then
      s
    else if s.quietSince.None? then
      s.(quietSince := Some(t.now))
    else if t.now - s.quietSince.value > Hysteresis then
      // Release the writer and log its file; the marker stays set.
      FlattenSnoc(s.closed, s.mode.clip);
      s.(mode := Idle, closed := s.closed + [s.mode.clip], log := s.log + [LogLine(s.mode.clip.path)])
    else
      s
  }

  /** The iterations' effect, oldest tick first. */
  function Run<F>(s: RecState<F>, ts: seq<Tick<F>>): RecState<F> {
    if ts == [] then s else Step(Run(s, ts[..|ts| - 1]), ts[|ts| - 1])
  }

  lemma RunSnoc<F>(s: RecState<F>, ts: seq<Tick<F>>, t: Tick<F>)
    ensures Run(s, ts + [t]) == Step(Run(s, ts), t)
  {
    assert (ts + [t])[..|ts|] == ts;
  }

  /** Releasing the writer at loop exit (main.py:306-307): the open file is
      closed with every frame it holds, and no log line is written for it. */
  function Shutdown<F>(s: RecState<F>): (s': RecState<F>)
    ensures s'.mode.Idle? && s'.log == s.log && Written(s') == Written(s)
    ensures |s'.closed| == |s.closed| + (if s.mode.Recording? then 1 else 0)
    ensures s'.closed[..|s.closed|] == s.closed
    ensures s.mode.Recording? ==> s'.closed[|s.closed|] == s.mode.clip
  {
    match s.mode
    case Idle => s
    case Recording(clip) =>
      FlattenSnoc(s.closed, clip);
      s.(mode := Idle, closed := s.closed + [clip])
  }

  /** Frames of the ticks that saw motion, in order. */
  function MotionFrames<F>(ts: seq<Tick<F>>): seq<F> {
    if ts == [] then []
    else MotionFrames(ts[..|ts| - 1]) + (if ts[|ts| - 1].motion then [ts[|ts| - 1].frame] else [])
  }

  ghost predicate AllQuiet<F>(ts: seq<Tick<F>>) {
    forall k :: 0 <= k < |ts| ==> !ts[k].motion
  }

  ghost predicate AllMotion<F>(ts: seq<Tick<F>>) {
    forall k :: 0 <= k < |ts| ==> ts[k].motion
  }

  lemma {:induction false} RunAppend<F>(s: RecState<F>, ts: seq<Tick<F>>, us: seq<Tick<F>>)
    ensures Run(s, ts + us) == Run(Run(s, ts), us)
    decreases |us|
  {
    if us != [] {
      var n := |us| - 1;
      assert (ts + us)[..|ts + us| - 1] == ts + us[..n];
      RunAppend(s, ts, us[..n]);
    } else {
      assert ts + us == ts;
    }
  }

  lemma RunCons<F>(s: RecState<F>, t: Tick<F>, ts: seq<Tick<F>>)
    ensures Run(s, [t] + ts) == Run(Step(s, t), ts)
  {
    RunAppend(s, [t], ts);
    assert [t][..0] == [];
  }

  /** The frames written over a run are exactly the motion frames, in order:
      quiet frames, grace-period ones included, never reach a writer, and no
      motion frame is lost. */
  lemma {:induction false} RunWritesMotionFrames<F>(s: RecState<F>, ts: seq<Tick<F>>)
    ensures Written(Run(s, ts)) == Written(s) + MotionFrames(ts)
  {
    if ts != [] {
      var n := |ts| - 1;
      var t := ts[n];
      RunWritesMotionFrames(s, ts[..n]);
      var p := Run(s, ts[..n]);
      var x := if t.motion then [t.frame] else [];
      assert Written(Step(p, t)) == Written(p) + x;
      assert MotionFrames(ts) == MotionFrames(ts[..n]) + x;
      assert Written(s) + MotionFrames(ts) == (Written(s) + MotionFrames(ts[..n])) + x;
    }
  }

  /** Each stop appends one log line, naming the stopped file; nothing else
      appends. So, from the initial state, the log and the released files
      correspond one to one, in order. */
  lemma {:induction false} RunKeepsLogMatched<F>(s: RecState<F>, ts: seq<Tick<F>>)
    requires LogMatchesClips(s)
    ensures LogMatchesClips(Run(s, ts))
  {
    if ts != [] {
      var p := Run(s, ts[..|ts| - 1]);
      RunKeepsLogMatched(s, ts[..|ts| - 1]);
      var q := Step(p, ts[|ts| - 1]);
      if p.mode.Recording? && q.mode.Idle? {
        forall i | 0 <= i < |q.log| ensures q.log[i] == LogLine(q.closed[i].path) {
          if i < |p.log| { assert q.log[i] == q.log[..|p.log|][i]; }
        }
      }
    }
  }

  /** Shutting down with a file open releases it without a log line, so the
      last released file is the one the log does not list. */
  lemma ShutdownLeavesClipUnlogged<F>(s: RecState<F>)
    requires LogMatchesClips(s) && s.mode.Recording?
    ensures |Shutdown(s).log| + 1 == |Shutdown(s).closed|
    ensures Shutdown(s).closed[|Shutdown(s).log|] == s.mode.clip
  {
  }

  /** Idle and quiet: nothing changes, a stale marker included (main.py:283-284). */
  lemma IdleQuietKeepsState<F>(s: RecState<F>, t: Tick<F>)
    requires s.mode.Idle? && !t.motion
    ensures Step(s, t) == s
  {
  }

  /** Idle and motion: a recording opens on the supplied fresh file name, the
      frame is its first frame, the start time is recorded and the marker is
      cleared (main.py:270-282). */
  lemma IdleMotionStarts<F>(s: RecState<F>, t: Tick<F>)
    requires s.mode.Idle? && t.motion
    ensures Step(s, t).mode == Recording(Clip(t.name, [t.frame]))
    ensures Step(s, t).startedAt == Some(t.now) && Step(s, t).quietSince.None?
    ensures Step(s, t).log == s.log && Step(s, t).closed == s.closed
  {
  }

  /** A marker left over from an earlier recording has no effect on the next
      one: opening a recording does not depend on it. */
  lemma StaleMarkerIgnored<F>(s: RecState<F>, t: Tick<F>, q1: Option<nat>, q2: Option<nat>)
    requires s.mode.Idle? && t.motion
    ensures Step(s.(quietSince := q1), t) == Step(s.(quietSince := q2), t)
  {
  }

  /** While recording, the first quiet frame only sets the marker: the
      recording continues, nothing is written and nothing is logged
      (main.py:284-286). */
  lemma FirstQuietOnlyMarks<F>(s: RecState<F>, t: Tick<F>)
    requires s.mode.Recording? && s.quietSince.None? && !t.motion
    ensures Step(s, t) == s.(quietSince := Some(t.now))
  {
  }

  /** A quiet frame while recording stops the recording if and only if the
      marker is set and strictly more than Hysteresis milliseconds have passed
      since it (main.py:284-288). */
  lemma QuietStopRule<F>(s: RecState<F>, t: Tick<F>)
    requires s.mode.Recording? && !t.motion
    ensures Step(s, t).mode.Idle? <==>
              s.quietSince.Some? && t.now - s.quietSince.value > Hysteresis
  {
  }

  lemma {:induction false} IdleQuietRun<F>(s: RecState<F>, ts: seq<Tick<F>>)
    requires s.mode.Idle? && AllQuiet(ts)
    ensures Run(s, ts) == s
  {
    if ts != [] {
      IdleQuietRun(s, ts[..|ts| - 1]);
    }
  }

  /** Every tick of the run comes at most Hysteresis milliseconds after q. */
  ghost predicate Within<F>(ts: seq<Tick<F>>, q: nat) {
    forall k :: 0 <= k < |ts| ==> ts[k].now - q <= Hysteresis
  }

  /** A quiet run while recording with the marker at q: the recording
      survives the run exactly when every tick is within Hysteresis of q, and
      otherwise it stops once, logging its own file. */
  lemma {:induction false} MarkedQuietRun<F>(s: RecState<F>, q: nat, ts: seq<Tick<F>>)
    requires s.mode.Recording? && s.quietSince == Some(q) && AllQuiet(ts)
    ensures Run(s, ts).mode.Recording? <==> Within(ts, q)
    ensures Run(s, ts).mode.Recording? ==> Run(s, ts) == s
    ensures Run(s, ts).mode.Idle? ==>
              Run(s, ts) == s.(mode := Idle, closed := s.closed + [s.mode.clip], log := s.log + [LogLine(s.mode.clip.path)])
  {
    if ts != [] {
      var n := |ts| - 1;
      var p, t := ts[..n], ts[n];
      MarkedQuietRun(s, q, p);
      var r := Run(s, p);
      assert Run(s, ts) == Step(r, t);
      assert Within(ts, q) <==> Within(p, q) && t.now - q <= Hysteresis by {
        forall k | 0 <= k < n ensures p[k] == ts[k] {}
      }
      if r.mode.Idle? {
        IdleQuietKeepsState(r, t);
      }
    }
  }

  /** After motion, over a quiet run, a recording survives exactly while
      every later quiet frame is within Hysteresis of the first one (which
      only sets the marker), and otherwise it stops once, appending exactly
      one log line that names its file. */
  lemma QuietAfterMotion<F>(s: RecState<F>, ts: seq<Tick<F>>)
    requires s.mode.Recording? && s.quietSince.None? && AllQuiet(ts) && ts != []
    ensures Run(s, ts).mode.Recording? <==> Within(ts[1..], ts[0].now)
    ensures Run(s, ts).mode.Idle? ==>
              Run(s, ts).log == s.log + [LogLine(s.mode.clip.path)]
              && Run(s, ts).closed == s.closed + [s.mode.clip]
    ensures Run(s, ts).mode.Recording? ==> Run(s, ts).log == s.log
  {
    var t, rest := ts[0], ts[1..];
    assert ts == [t] + rest;
    RunCons(s, t, rest);
    FirstQuietOnlyMarks(s, t);
    MarkedQuietRun(Step(s, t), t.now, rest);
  }

  /** One isolated motion frame from Idle, followed by quiet frames of which
      one comes more than Hysteresis after the first: exactly one recording is
      completed, holding just that frame, and exactly one log line names it. */
  lemma IsolatedMotionLogsOnce<F>(s: RecState<F>, m: Tick<F>, ts: seq<Tick<F>>, k: nat)
    requires s.mode.Idle? && m.motion && AllQuiet(ts)
    requires k < |ts| && ts[k].now - ts[0].now > Hysteresis
    ensures Run(s, [m] + ts).mode.Idle?
    ensures Run(s, [m] + ts).log == s.log + [LogLine(m.name)]
    ensures Run(s, [m] + ts).closed == s.closed + [Clip(m.name, [m.frame])]
  {
    RunCons(s, m, ts);
    var s1 := Step(s, m);
    IdleMotionStarts(s, m);
    QuietAfterMotion(s1, ts);
    assert 0 < k && ts[k] == ts[1..][k - 1];
    assert !Run(s1, ts).mode.Recording?;
  }

  /** Sustained motion keeps a single recording open: no stop, no log line,
      and the marker stays clear. */
  lemma {:induction false} MotionRunKeepsRecording<F>(s: RecState<F>, ts: seq<Tick<F>>)
    requires AllMotion(ts) && ts != []
    ensures Run(s, ts).mode.Recording? && Run(s, ts).quietSince.None?
    ensures Run(s, ts).log == s.log && Run(s, ts).closed == s.closed
    ensures s.mode.Recording? ==> Run(s, ts).mode.clip.path == s.mode.clip.path
  {
    var n := |ts| - 1;
    if n > 0 {
      MotionRunKeepsRecording(s, ts[..n]);
    }
  }
}
