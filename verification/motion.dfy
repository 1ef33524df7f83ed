/** Three-frame motion classification of the capture loop (main.py:250-265):
    two consecutive absolute differences, each thresholded, combined with a
    bitwise and, opened with a 3x3 cross, counted, and compared against the
    noise allowance. The frames are taken as already converted to gray. */
module Motion {
  import opened Common
  import opened Image

  /** Gray-level change a pixel must strictly exceed to count as changed (`thresh`). */
  const Thresh := 25

  /** Number of changed pixels tolerated as noise (`max_diff`). */
  const MaxDiff := 5

  /** Three gray frames of one shape, as a camera at a fixed resolution delivers. */
  ghost predicate Window(a: Grid, b: Grid, c: Grid) {
    SameShape(a, b) && SameShape(b, c) && IsGray(a) && IsGray(b) && IsGray(c)
  }

  /** A pixel changed beyond the threshold between a and b and again between b and c. */
  predicate ChangedTwice(a: Grid, b: Grid, c: Grid, r: int, col: int)
    requires InGrid(a, r, col) && InGrid(b, r, col) && InGrid(c, r, col)
  {
    Abs(a[r][col] - b[r][col]) > Thresh && Abs(b[r][col] - c[r][col]) > Thresh
  }

  /** The mask before opening: `bitwise_and` of the two thresholded differences.
      It is white exactly at the pixels that changed beyond the threshold in
      both consecutive differences, and black everywhere else. */
  function RawMask(a: Grid, b: Grid, c: Grid): (m: Grid)
    requires Window(a, b, c)
    ensures SameShape(m, a) && IsGray(m) && IsMask(m)
    ensures forall r, col :: InGrid(a, r, col) ==>
              (m[r][col] == White <==> ChangedTwice(a, b, c, r, col))
  {
    var d1 := Threshold(AbsDiff(a, b), Thresh, White);
    var d2 := Threshold(AbsDiff(b, c), Thresh, White);
    assert IsGray(d1) && IsGray(d2);
    BitwiseAnd(d1, d2)
  }

  /** The opened mask whose nonzero pixels are counted and boxed. */
  function MotionMask(a: Grid, b: Grid, c: Grid): (m: Grid)
    requires Window(a, b, c)
    ensures SameShape(m, a)
  {
    Open(RawMask(a, b, c))
  }

  /** The per-triple result: whether motion was detected and, if so, the
      rectangle drawn around it. */
  datatype MotionEvent = MotionEvent(detected: bool, box: Option<Box>)

  /** Classify one window of three frames. Motion is detected exactly when the
      opened mask has more than MaxDiff nonzero pixels; then the box encloses
      every nonzero pixel of the opened mask and each edge touches one. No box
      is produced without detection. */
  function Classify(a: Grid, b: Grid, c: Grid): (ev: MotionEvent)
    requires Window(a, b, c)
    ensures ev.detected <==> CountNonZero(MotionMask(a, b, c)) > MaxDiff
    ensures ev.box.Some? <==> ev.detected
    ensures ev.box.Some? ==>
              Encloses(ev.box.value, MotionMask(a, b, c)) && Tight(ev.box.value, MotionMask(a, b, c))
  {
    var m := MotionMask(a, b, c);
    if CountNonZero(m) > MaxDiff then
      CountPositive(m);
      BoundsSpec(m);
      MotionEvent(true, Bounds(m))
    else
      MotionEvent(false, None)
  }

  /** Every nonzero pixel of the opened mask changed beyond the threshold in
      both consecutive differences. */
  lemma OpenedPixelChanged(a: Grid, b: Grid, c: Grid, r: int, col: int)
    requires Window(a, b, c) && InGrid(a, r, col)
    ensures NonZeroAt(MotionMask(a, b, c), r, col) ==> ChangedTwice(a, b, c, r, col)
  {
    var m := RawMask(a, b, c);
    OpenBelow(m, r, col);
  }

  /** Detection needs more than MaxDiff pixels that changed in both
      differences: the opening can only remove changed pixels, never add them. */
  lemma DetectionNeedsChange(a: Grid, b: Grid, c: Grid)
    requires Window(a, b, c)
    ensures Classify(a, b, c).detected ==> CountNonZero(RawMask(a, b, c)) > MaxDiff
  {
    var m := RawMask(a, b, c);
    var o := MotionMask(a, b, c);
    forall r, col | NonZeroAt(o, r, col) ensures m[r][col] != 0 {
      OpenBelow(m, r, col);
    }
    CountMonotone(o, m);
  }

  /** Three identical frames: the mask is black, nothing is counted and no
      motion is detected. */
  lemma StillFrames(a: Grid)
    requires Window(a, a, a)
    ensures CountNonZero(MotionMask(a, a, a)) == 0
    ensures Classify(a, a, a) == MotionEvent(false, None)
  {
    var m := RawMask(a, a, a);
    var o := MotionMask(a, a, a);
    forall r, col | InGrid(o, r, col) ensures o[r][col] == 0 {
      assert m[r][col] == 0;
      OpenBelow(m, r, col);
    }
    AllZeroCount(o);
  }

  /** The mask before opening is a lone block when the pixels that changed
      twice form exactly that block. */
  lemma RawMaskBlock(a: Grid, b: Grid, c: Grid, w: nat, blk: Box)
    requires Window(a, b, c) && Interior(a, w, blk)
    requires forall r, col :: InGrid(a, r, col) ==> (ChangedTwice(a, b, c, r, col) <==> InBox(blk, r, col))
    ensures Interior(RawMask(a, b, c), w, blk) && IsBlock(RawMask(a, b, c), blk)
  {
  }

  /** A lone block of pixels that changed twice, at least three pixels high
      and wide and one pixel away from the image edge, loses its four corners
      to the opening. It is detected exactly
      when it has more than 9 pixels, so a 3x3 block is not, and then the
      drawn rectangle is the block's own outline. */
  lemma BlockMotion(a: Grid, b: Grid, c: Grid, w: nat, blk: Box)
    requires Window(a, b, c) && Interior(a, w, blk)
    requires forall r, col :: InGrid(a, r, col) ==> (ChangedTwice(a, b, c, r, col) <==> InBox(blk, r, col))
    requires blk.bottom - blk.top >= 2 && blk.right - blk.left >= 2
    ensures CountNonZero(MotionMask(a, b, c)) == (blk.bottom - blk.top + 1) * (blk.right - blk.left + 1) - 4
    ensures Classify(a, b, c).detected <==> (blk.bottom - blk.top + 1) * (blk.right - blk.left + 1) > 9
    ensures Classify(a, b, c).detected ==> Classify(a, b, c).box == Some(blk)
  {
    var m := RawMask(a, b, c);
    RawMaskBlock(a, b, c, w, blk);
    OpenBlock(m, w, blk);
    var o := MotionMask(a, b, c);
    assert Interior(o, w, blk);
    CountCornerless(o, w, blk);
    CornerlessBounds(o, w, blk);
  }

  /** A lone block of pixels that changed twice, less than three pixels high
      or wide and one pixel away from the image edge, is erased by the opening
      and never detected. */
  lemma ThinBlockMissed(a: Grid, b: Grid, c: Grid, w: nat, blk: Box)
    requires Window(a, b, c) && Interior(a, w, blk)
    requires forall r, col :: InGrid(a, r, col) ==> (ChangedTwice(a, b, c, r, col) <==> InBox(blk, r, col))
    requires blk.bottom - blk.top < 2 || blk.right - blk.left < 2
    ensures CountNonZero(MotionMask(a, b, c)) == 0 && !Classify(a, b, c).detected
  {
    RawMaskBlock(a, b, c, w, blk);
    OpenThinBlock(RawMask(a, b, c), w, blk);
    AllZeroCount(MotionMask(a, b, c));
  }

  /** Concretely: black 5x5 frames around one whose middle 3x3 square is
      white. The square changed twice, yet it opens to a 5-pixel cross and
      goes undetected. */
  lemma SquareOfNineMissed()
    ensures var black := seq(5, r => seq(5, col => 0));
            var square := seq(5, r => seq(5, col => if 1 <= r <= 3 && 1 <= col <= 3 then White else 0));
            && Window(black, square, black)
            && CountNonZero(MotionMask(black, square, black)) == 5
            && !Classify(black, square, black).detected
  {
    var black := seq(5, r => seq(5, col => 0));
    var square := seq(5, r => seq(5, col => if 1 <= r <= 3 && 1 <= col <= 3 then White else 0));
    var blk := Box(1, 1, 3, 3);
    assert Window(black, square, black);
    forall r, col | InGrid(black, r, col)
      ensures ChangedTwice(black, square, black, r, col) <==> InBox(blk, r, col)
    {
    }
    BlockMotion(black, square, black, 5, blk);
  }
}
