/** The capture thread's publishing buffer, `StreamingOutput` (main.py:119-133),
    over a model of Python's `io.BytesIO`. A write that starts with the JPEG
    start-of-image marker FF D8 first publishes, as `frame`, everything written
    since the previous such write; then it rewinds the buffer and writes itself.
    The condition variable and the waking of viewers are not part of this
    model: `frame` is the slot the viewers read. */
module Streaming {
  import opened Common

  type Bytes = seq<byte>

  /** An `io.BytesIO`: its contents and its stream position. The position may
      lie past the end of the contents, as after a seek. */
  datatype BytesIO = BytesIO(data: Bytes, pos: nat)

  function Zeros(n: nat): (z: Bytes)
    ensures |z| == n && forall i :: 0 <= i < n ==> z[i] == 0
  {
    seq(n, i => 0)
  }

  /** `truncate()` with no argument: the contents are cut at the current
      position, which does not move; contents no longer than the position are
      left as they are. */
  function Truncate(b: BytesIO): (r: BytesIO)
    ensures r.pos == b.pos
    ensures |r.data| == Min(|b.data|, b.pos) && r.data == b.data[..|r.data|]
  {
    if b.pos < |b.data| then b.(data := b.data[..b.pos]) else b
  }

  /** `seek(0)`. */
  function Rewind(b: BytesIO): BytesIO {
    b.(pos := 0)
  }

  /** `write(buf)`: overwrite from the position on, growing the contents when
      the write runs past their end and filling with zero bytes any gap between
      the end and the position; the position moves past the written bytes.
      Returns len(buf). An empty write changes nothing. */
  function WriteAt(b: BytesIO, buf: Bytes): (r: (BytesIO, nat))
    ensures r.1 == |buf|
    ensures |buf| == 0 ==> r.0 == b
    ensures |buf| > 0 ==>
              && r.0.pos == b.pos + |buf|
              && |r.0.data| == Max(|b.data|, b.pos + |buf|)
              && r.0.data[b.pos..r.0.pos] == buf
              && (forall i :: 0 <= i < b.pos && i < |b.data| ==> r.0.data[i] == b.data[i])
              && (forall i :: |b.data| <= i < b.pos ==> r.0.data[i] == 0)
              && (forall i :: r.0.pos <= i < |b.data| ==> r.0.data[i] == b.data[i])
  {
    if |buf| == 0 then (b, 0)
    else
      var padded := if b.pos > |b.data| then b.data + Zeros(b.pos - |b.data|) else b.data;
      var end := b.pos + |buf|;
      var tail := if end < |padded| then padded[end..] else [];
      (BytesIO(padded[..b.pos] + buf + tail, end), |buf|)
  }

  /** The JPEG start-of-image marker FF D8 opens the buffer (`startswith`). */
  predicate StartsWithSoi(buf: Bytes) {
    |buf| >= 2 && buf[0] == 0xFF && buf[1] == 0xD8
  }

  /** `StreamingOutput`: the published frame (None until the first
      publication) and the BytesIO it collects writes in. */
  datatype StreamingOutput = StreamingOutput(frame: Option<Bytes>, buffer: BytesIO)

  /** A freshly constructed output (main.py:120-122). */
  function NewOutput(): StreamingOutput {
    StreamingOutput(None, BytesIO([], 0))
  }

  /** The position never lies past the end of the contents. */
  ghost predicate Valid(o: StreamingOutput) {
    o.buffer.pos <= |o.buffer.data|
  }

  /** `StreamingOutput.write(buf)` (main.py:125-133). It returns len(buf). A
      write not starting with FF D8 leaves the published frame alone; one that
      does publishes the bytes in front of the buffer's position. */
  function Write(o: StreamingOutput, buf: Bytes): (r: (StreamingOutput, nat))
    ensures r.1 == |buf|
    ensures !StartsWithSoi(buf) ==> r.0.frame == o.frame
    ensures StartsWithSoi(buf) && Valid(o) ==> r.0.frame == Some(o.buffer.data[..o.buffer.pos])
  {
    if StartsWithSoi(buf) then
      var cut := Truncate(o.buffer);
      var w := WriteAt(Rewind(cut), buf);
      (StreamingOutput(Some(cut.data), w.0), w.1)
    else
      var w := WriteAt(o.buffer, buf);
      (StreamingOutput(o.frame, w.0), w.1)
  }

  /** The abstract view: the bytes written since the latest write that
      started with FF D8 (or since construction), and the published frame. */
  datatype Published = Published(pending: Bytes, frame: Option<Bytes>)

  function Abstract(o: StreamingOutput): Published
    requires Valid(o)
  {
    Published(o.buffer.data[..o.buffer.pos], o.frame)
  }

  /** The abstract write: a start-of-image write publishes what was pending
      and starts a new pending frame with itself; any other write extends the
      pending frame. */
  function AbstractWrite(p: Published, buf: Bytes): Published {
    if StartsWithSoi(buf) then Published(buf, Some(p.pending)) else Published(p.pending + buf, p.frame)
  }

  /** The concrete write refines the abstract one: stale bytes after the
      position never leak into a published frame, because the buffer is
      truncated at the position before its contents are taken. */
  lemma WriteRefines(o: StreamingOutput, buf: Bytes)
    requires Valid(o)
    ensures Valid(Write(o, buf).0)
    ensures Abstract(Write(o, buf).0) == AbstractWrite(Abstract(o), buf)
  {
    var b := o.buffer;
    var o' := Write(o, buf).0;
    var b' := o'.buffer;
    if StartsWithSoi(buf) {
      assert b'.data[..b'.pos] == b'.data[0..b'.pos];
    } else if |buf| > 0 {
      assert b'.data[..b.pos] == b.data[..b.pos];
      assert b'.data[..b'.pos] == b'.data[..b.pos] + b'.data[b.pos..b'.pos];
    } else {
      assert b.data[..b.pos] + buf == b.data[..b.pos];
    }
  }

  /** The output after a history of writes, oldest first. */
  function Feed(o: StreamingOutput, h: seq<Bytes>): StreamingOutput {
    if h == [] then o else Write(Feed(o, h[..|h| - 1]), h[|h| - 1]).0
  }

  lemma FeedSnoc(o: StreamingOutput, h: seq<Bytes>, x: Bytes)
    ensures Feed(o, h + [x]) == Write(Feed(o, h), x).0
  {
    assert (h + [x])[..|h|] == h;
  }

  /** All bytes of a history of writes, in order. */
  function Concat(h: seq<Bytes>): Bytes {
    if h == [] then [] else Concat(h[..|h| - 1]) + h[|h| - 1]
  }

  /** Index of the latest write that started with FF D8, if any. */
  function LastSoi(h: seq<Bytes>): (i: Option<nat>)
    ensures i.None? <==> forall j :: 0 <= j < |h| ==> !StartsWithSoi(h[j])
    ensures i.Some? ==>
              i.value < |h| && StartsWithSoi(h[i.value])
              && forall j :: i.value < j < |h| ==> !StartsWithSoi(h[j])
  {
    if h == [] then None
    else if StartsWithSoi(h[|h| - 1]) then Some(|h| - 1)
    else LastSoi(h[..|h| - 1])
  }

  /** Reference definition of the pending bytes: the latest start-of-image
      write and all later writes, or all writes when there was none. */
  function SinceLastSoi(h: seq<Bytes>): Bytes {
    match LastSoi(h)
    case None => Concat(h)
    case Some(i) => Concat(h[i..])
  }

  /** Reference definition of the published frame: None before any
      start-of-image write; otherwise what was pending just before the latest
      one. */
  function FrameOf(h: seq<Bytes>): Option<Bytes> {
    match LastSoi(h)
    case None => None
    case Some(i) => Some(SinceLastSoi(h[..i]))
  }

  lemma ConcatSnoc(h: seq<Bytes>, x: Bytes)
    ensures Concat(h + [x]) == Concat(h) + x
  {
    assert (h + [x])[..|h|] == h;
  }

  /** Appending a write to the history: a start-of-image write becomes the
      whole pending frame, any other write extends it. */
  lemma SinceLastSoiSnoc(p: seq<Bytes>, x: Bytes)
    ensures SinceLastSoi(p + [x]) == if StartsWithSoi(x) then x else SinceLastSoi(p) + x
  {
    var h := p + [x];
    assert h[..|p|] == p;
    if StartsWithSoi(x) {
      assert h[|p|..] == [x];
      assert Concat([x]) == Concat([]) + x;
    } else {
      match LastSoi(p)
      case None =>
        ConcatSnoc(p, x);
      case Some(i) =>
        assert h[i..] == p[i..] + [x];
        ConcatSnoc(p[i..], x);
    }
  }

  /** Appending a write to the history: a start-of-image write publishes
      what was pending; any other write leaves the published frame alone. */
  lemma FrameOfSnoc(p: seq<Bytes>, x: Bytes)
    ensures FrameOf(p + [x]) == if StartsWithSoi(x) then Some(SinceLastSoi(p)) else FrameOf(p)
  {
    var h := p + [x];
    assert h[..|p|] == p;
    if !StartsWithSoi(x) {
      match LastSoi(p)
      case None =>
      case Some(i) =>
        assert h[..i] == p[..i];
    }
  }

  /** After any history of writes to a new output, the published frame is
      exactly what the reference definition says: the bytes written from the
      second-latest start-of-image write up to the latest one. */
  lemma {:induction false} FeedMatchesHistory(h: seq<Bytes>)
    ensures Valid(Feed(NewOutput(), h))
    ensures Abstract(Feed(NewOutput(), h)) == Published(SinceLastSoi(h), FrameOf(h))
  {
    if h != [] {
      var n := |h| - 1;
      var p := h[..n];
      FeedMatchesHistory(p);
      WriteRefines(Feed(NewOutput(), p), h[n]);
      assert h == p + [h[n]];
      SinceLastSoiSnoc(p, h[n]);
      FrameOfSnoc(p, h[n]);
    }
  }

  /** Before any write starting with FF D8, nothing is published. */
  lemma NothingBeforeFirstSoi(h: seq<Bytes>)
    requires forall j :: 0 <= j < |h| ==> !StartsWithSoi(h[j])
    ensures Feed(NewOutput(), h).frame.None?
  {
    FeedMatchesHistory(h);
  }

  /** When every write starts with FF D8, the reference frame is the
      previous write, or the empty byte string after the first one. */
  lemma AllSoiFrame(h: seq<Bytes>)
    requires |h| >= 1 && forall j :: 0 <= j < |h| ==> StartsWithSoi(h[j])
    ensures FrameOf(h) == Some(if |h| == 1 then [] else h[|h| - 2])
  {
    var n := |h| - 1;
    var p := h[..n];
    assert h == p + [h[n]];
    FrameOfSnoc(p, h[n]);
    if n > 0 {
      var p' := p[..n - 1];
      assert p == p' + [h[n - 1]];
      SinceLastSoiSnoc(p', h[n - 1]);
    }
  }

  /** The capture loop hands over each JPEG in one write, so the published
      frame lags one behind: after the first JPEG it is the empty byte string,
      and after k >= 2 JPEGs it is the (k-1)-th. */
  lemma WholeJpegsLagByOne(h: seq<Bytes>)
    requires |h| >= 1 && forall j :: 0 <= j < |h| ==> StartsWithSoi(h[j])
    ensures Feed(NewOutput(), h).frame == Some(if |h| == 1 then [] else h[|h| - 2])
  {
    FeedMatchesHistory(h);
    AllSoiFrame(h);
  }
}
