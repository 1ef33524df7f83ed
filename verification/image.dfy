/** Grayscale images and the handful of pixel operations the motion detector
    borrows from the vision library: absolute difference, binary threshold,
    bitwise and, opening with a 3x3 cross, counting nonzero pixels and the
    bounding rectangle of the nonzero pixels. An image is a sequence of rows;
    a pixel is addressed as g[row][column]. */
module Image {
  import opened Common

  type Grid = seq<seq<int>>

  /** Largest 8-bit pixel value. */
  const White := 255

  predicate InGrid(g: Grid, r: int, c: int) {
    0 <= r < |g| && 0 <= c < |g[r]|
  }

  predicate NonZeroAt(g: Grid, r: int, c: int) {
    InGrid(g, r, c) && g[r][c] != 0
  }

  ghost predicate HasNonZero(g: Grid) {
    exists r, c :: NonZeroAt(g, r, c)
  }

  ghost predicate SameShape(a: Grid, b: Grid) {
    |a| == |b| && forall r :: 0 <= r < |a| ==> |a[r]| == |b[r]|
  }

  /** Every pixel is an 8-bit gray level. */
  ghost predicate IsGray(g: Grid) {
    forall r, c :: InGrid(g, r, c) ==> 0 <= g[r][c] <= White
  }

  /** Every pixel is either black or white, as a binary mask is. */
  ghost predicate IsMask(g: Grid) {
    forall r, c :: InGrid(g, r, c) ==> g[r][c] == 0 || g[r][c] == White
  }

  ghost predicate AllZero(g: Grid) {
    forall r, c :: InGrid(g, r, c) ==> g[r][c] == 0
  }

  function Abs(x: int): nat { if x < 0 then -x else x }

  /** cv2.absdiff on two 8-bit images of one shape. */
  function AbsDiff(a: Grid, b: Grid): (d: Grid)
    requires SameShape(a, b)
    ensures SameShape(d, a)
  {
    seq(|a|, r requires 0 <= r < |a| =>
      seq(|a[r]|, c requires 0 <= c < |a[r]| => Abs(a[r][c] - b[r][c])))
  }

  /** cv2.threshold with THRESH_BINARY: a pixel strictly above `thresh`
      becomes `maxval`, every other pixel becomes 0. */
  function Threshold(g: Grid, thresh: int, maxval: int): (m: Grid)
    ensures SameShape(m, g)
  {
    seq(|g|, r requires 0 <= r < |g| =>
      seq(|g[r]|, c requires 0 <= c < |g[r]| => if g[r][c] > thresh then maxval else 0))
  }

  /** Bitwise and of two 8-bit pixel values. */
  function AndPixel(x: int, y: int): (z: int)
    requires 0 <= x <= White && 0 <= y <= White
    ensures 0 <= z <= White
    ensures (x == 0 || x == White) && (y == 0 || y == White) ==>
              (z == White <==> x == White && y == White) && (z == 0 || z == White)
  {
    ((x as bv8) & (y as bv8)) as int
  }

  /** cv2.bitwise_and on two 8-bit images of one shape. */
  function BitwiseAnd(a: Grid, b: Grid): (m: Grid)
    requires SameShape(a, b) && IsGray(a) && IsGray(b)
    ensures SameShape(m, a)
  {
    seq(|a|, r requires 0 <= r < |a| =>
      seq(|a[r]|, c requires 0 <= c < |a[r]| => AndPixel(a[r][c], b[r][c])))
  }

  /** The pixel at (r, c), or `outside` when (r, c) lies off the image. */
  function At(g: Grid, r: int, c: int, outside: int): int {
    if InGrid(g, r, c) then g[r][c] else outside
  }

  /** Minimum over the 3x3 cross centred at (r, c); off-image neighbours are ignored. */
  function CrossMin(g: Grid, r: int, c: int): int {
    Min(At(g, r, c, White),
      Min(Min(At(g, r - 1, c, White), At(g, r + 1, c, White)),
          Min(At(g, r, c - 1, White), At(g, r, c + 1, White))))
  }

  /** Maximum over the 3x3 cross centred at (r, c); off-image neighbours are ignored. */
  function CrossMax(g: Grid, r: int, c: int): int {
    Max(At(g, r, c, 0),
      Max(Max(At(g, r - 1, c, 0), At(g, r + 1, c, 0)),
          Max(At(g, r, c - 1, 0), At(g, r, c + 1, 0))))
  }

  function Erode(g: Grid): (e: Grid)
    ensures SameShape(e, g)
  {
    seq(|g|, r requires 0 <= r < |g| =>
      seq(|g[r]|, c requires 0 <= c < |g[r]| => CrossMin(g, r, c)))
  }

  function Dilate(g: Grid): (d: Grid)
    ensures SameShape(d, g)
  {
    seq(|g|, r requires 0 <= r < |g| =>
      seq(|g[r]|, c requires 0 <= c < |g[r]| => CrossMax(g, r, c)))
  }

  /** Morphological opening (erosion, then dilation) with the 3x3 cross. */
  function Open(g: Grid): (o: Grid)
    ensures SameShape(o, g)
  {
    Dilate(Erode(g))
  }

  /** The cross minimum at a pixel q is at most any on-image pixel of q's cross. */
  lemma CrossMinBelow(g: Grid, qr: int, qc: int, r: int, c: int)
    requires InGrid(g, r, c)
    requires (qr == r && (qc == c || qc == c - 1 || qc == c + 1)) || (qc == c && (qr == r - 1 || qr == r + 1))
    ensures CrossMin(g, qr, qc) <= g[r][c]
  {
  }

  /** The eroded value of a cross neighbour of (r, c), or 0 off the image, is at most g[r][c]. */
  lemma ErodedNeighbourBelow(g: Grid, qr: int, qc: int, r: int, c: int)
    requires IsGray(g) && InGrid(g, r, c)
    requires (qr == r && (qc == c || qc == c - 1 || qc == c + 1)) || (qc == c && (qr == r - 1 || qr == r + 1))
    ensures At(Erode(g), qr, qc, 0) <= g[r][c]
  {
    var e := Erode(g);
    if InGrid(e, qr, qc) {
      assert e[qr][qc] == CrossMin(g, qr, qc);
      CrossMinBelow(g, qr, qc, r, c);
    }
  }

  /** Opening never brightens a pixel and never makes one negative: each
      output pixel lies between 0 and the input pixel at the same place. */
  lemma OpenBelow(g: Grid, r: int, c: int)
    requires IsGray(g) && InGrid(g, r, c)
    ensures 0 <= Open(g)[r][c] <= g[r][c]
  {
    var e := Erode(g);
    // (r, c) lies in the cross of each of its cross neighbours.
    ErodedNeighbourBelow(g, r, c, r, c);
    ErodedNeighbourBelow(g, r - 1, c, r, c);
    ErodedNeighbourBelow(g, r + 1, c, r, c);
    ErodedNeighbourBelow(g, r, c - 1, r, c);
    ErodedNeighbourBelow(g, r, c + 1, r, c);
    assert Open(g)[r][c] == CrossMax(e, r, c);
  }

  /** Number of nonzero entries of one row. */
  function RowCount(row: seq<int>): nat {
    if row == [] then 0
    else RowCount(row[..|row| - 1]) + (if row[|row| - 1] != 0 then 1 else 0)
  }

  /** cv2.countNonZero. */
  function CountNonZero(g: Grid): nat {
    if g == [] then 0 else CountNonZero(g[..|g| - 1]) + RowCount(g[|g| - 1])
  }

  lemma {:induction false} RowCountPositive(row: seq<int>)
    ensures RowCount(row) <= |row|
    ensures RowCount(row) > 0 <==> exists j :: 0 <= j < |row| && row[j] != 0
  {
    if row != [] {
      var p := row[..|row| - 1];
      RowCountPositive(p);
      if exists j :: 0 <= j < |p| && p[j] != 0 {
        var j :| 0 <= j < |p| && p[j] != 0;
        assert row[j] != 0;
      }
    }
  }

  /** The count is positive exactly when some pixel is nonzero. */
  lemma {:induction false} CountPositive(g: Grid)
    ensures CountNonZero(g) > 0 <==> HasNonZero(g)
  {
    if g != [] {
      var n := |g| - 1;
      var p := g[..n];
      CountPositive(p);
      RowCountPositive(g[n]);
      if HasNonZero(p) {
        var r, c :| NonZeroAt(p, r, c);
        assert NonZeroAt(g, r, c);
      }
      if exists j :: 0 <= j < |g[n]| && g[n][j] != 0 {
        var j :| 0 <= j < |g[n]| && g[n][j] != 0;
        assert NonZeroAt(g, n, j);
      }
      if HasNonZero(g) {
        var r, c :| NonZeroAt(g, r, c);
        if r < n { assert NonZeroAt(p, r, c); } else { assert g[n][c] != 0; }
      }
    }
  }

  lemma {:induction false} RowCountMonotone(a: seq<int>, b: seq<int>)
    requires |a| == |b|
    requires forall j :: 0 <= j < |a| && a[j] != 0 ==> b[j] != 0
    ensures RowCount(a) <= RowCount(b)
  {
    if a != [] {
      RowCountMonotone(a[..|a| - 1], b[..|b| - 1]);
    }
  }

  /** An image whose nonzero pixels are all nonzero in another image of the
      same shape has no larger nonzero count. */
  lemma {:induction false} CountMonotone(a: Grid, b: Grid)
    requires SameShape(a, b)
    requires forall r, c :: NonZeroAt(a, r, c) ==> b[r][c] != 0
    ensures CountNonZero(a) <= CountNonZero(b)
  {
    if a != [] {
      var n := |a| - 1;
      forall r, c | NonZeroAt(a[..n], r, c) ensures b[..n][r][c] != 0 {
        assert NonZeroAt(a, r, c);
      }
      CountMonotone(a[..n], b[..n]);
      forall j | 0 <= j < |a[n]| && a[n][j] != 0 ensures b[n][j] != 0 {
        assert NonZeroAt(a, n, j);
      }
      RowCountMonotone(a[n], b[n]);
    }
  }

  /** An all-zero image has no nonzero pixel to count. */
  lemma AllZeroCount(g: Grid)
    requires AllZero(g)
    ensures CountNonZero(g) == 0
  {
    CountPositive(g);
  }

  /** Inclusive column range [lo, hi] of a row's nonzero entries. */
  datatype Span = Span(lo: nat, hi: nat)

  /** Axis-aligned rectangle with inclusive corners (left, top) and (right, bottom),
      the two points passed to cv2.rectangle. */
  datatype Box = Box(left: nat, top: nat, right: nat, bottom: nat)

  /** First and last nonzero column of a row, if any. */
  function RowSpan(row: seq<int>): Option<Span> {
    if row == [] then None
    else
      var n := |row| - 1;
      var p := RowSpan(row[..n]);
      if row[n] == 0 then p
      else if p.None? then Some(Span(n, n))
      else Some(Span(p.value.lo, n))
  }

  /** min/max of the row and column indices returned by np.nonzero: the
      leftmost and rightmost nonzero columns, the topmost and bottommost
      nonzero rows. */
  function Bounds(g: Grid): Option<Box> {
    if g == [] then None
    else
      var n := |g| - 1;
      var p := Bounds(g[..n]);
      match RowSpan(g[n])
      case None => p
      case Some(s) =>
        if p.None? then Some(Box(s.lo, n, s.hi, n))
        else Some(Box(Min(p.value.left, s.lo), p.value.top, Max(p.value.right, s.hi), n))
  }

  /** Every nonzero pixel lies inside the box. */
  ghost predicate Encloses(b: Box, g: Grid) {
    forall r, c :: NonZeroAt(g, r, c) ==> b.top <= r <= b.bottom && b.left <= c <= b.right
  }

  /** Each of the four edges of the box passes through a nonzero pixel. */
  ghost predicate Tight(b: Box, g: Grid) {
    && (exists c :: NonZeroAt(g, b.top, c))
    && (exists c :: NonZeroAt(g, b.bottom, c))
    && (exists r :: NonZeroAt(g, r, b.left))
    && (exists r :: NonZeroAt(g, r, b.right))
  }

  lemma {:induction false} RowSpanSpec(row: seq<int>)
    ensures RowSpan(row).Some? <==> exists j :: 0 <= j < |row| && row[j] != 0
    ensures RowSpan(row).Some? ==>
              var s := RowSpan(row).value;
              && s.lo <= s.hi < |row| && row[s.lo] != 0 && row[s.hi] != 0
              && forall j :: 0 <= j < |row| && row[j] != 0 ==> s.lo <= j <= s.hi
  {
    if row != [] {
      var n := |row| - 1;
      var p := row[..n];
      RowSpanSpec(p);
      if exists j :: 0 <= j < |p| && p[j] != 0 {
        var j :| 0 <= j < |p| && p[j] != 0;
        assert row[j] != 0;
      }
      forall j | 0 <= j < n && row[j] != 0 ensures p[j] != 0 { }
    }
  }

  /** The rectangle exists exactly when some pixel is nonzero, and then it
      encloses every nonzero pixel and each of its edges touches one. */
  lemma {:induction false} BoundsSpec(g: Grid)
    ensures Bounds(g).Some? <==> HasNonZero(g)
    ensures Bounds(g).Some? ==> Encloses(Bounds(g).value, g) && Tight(Bounds(g).value, g)
  {
    if g != [] {
      var n := |g| - 1;
      var p := g[..n];
      BoundsSpec(p);
      RowSpanSpec(g[n]);
      // Facts about the prefix carry over to the whole image, row for row.
      forall r, c | NonZeroAt(p, r, c) ensures NonZeroAt(g, r, c) { }
      forall r, c | NonZeroAt(g, r, c) && r < n ensures NonZeroAt(p, r, c) { }
      if HasNonZero(g) && !HasNonZero(p) {
        var r, c :| NonZeroAt(g, r, c);
        assert r == n && g[n][c] != 0;
      }
      if HasNonZero(p) {
        var r, c :| NonZeroAt(p, r, c);
        assert NonZeroAt(g, r, c);
      }
      match RowSpan(g[n])
      case None =>
        forall c | 0 <= c < |g[n]| ensures g[n][c] == 0 { }
      case Some(s) =>
        assert NonZeroAt(g, n, s.lo) && NonZeroAt(g, n, s.hi);
        var pb := Bounds(p);
        if pb.Some? {
          var b := pb.value;
          var top :| NonZeroAt(p, b.top, top);
          assert NonZeroAt(g, b.top, top);
          var left :| NonZeroAt(p, left, b.left);
          assert NonZeroAt(g, left, b.left);
          var right :| NonZeroAt(p, right, b.right);
          assert NonZeroAt(g, right, b.right);
        }
    }
  }

  /** (r, c) lies in the box, edges included. */
  predicate InBox(b: Box, r: int, c: int) {
    b.top <= r <= b.bottom && b.left <= c <= b.right
  }

  /** (r, c) is one of the box's four corners. */
  predicate AtCorner(b: Box, r: int, c: int) {
    (r == b.top || r == b.bottom) && (c == b.left || c == b.right)
  }

  /** A rectangular image w pixels wide, with the box at least one pixel
      away from each of its edges. */
  ghost predicate Interior(g: Grid, w: nat, b: Box) {
    && (forall r :: 0 <= r < |g| ==> |g[r]| == w)
    && 1 <= b.top <= b.bottom && b.bottom + 1 < |g|
    && 1 <= b.left <= b.right && b.right + 1 < w
  }

  /** A mask that is white exactly on the box: a lone rectangular block. */
  ghost predicate IsBlock(g: Grid, b: Box) {
    forall r, c :: InGrid(g, r, c) ==> g[r][c] == if InBox(b, r, c) then White else 0
  }

  /** Nonzero exactly on the box without its corners. */
  ghost predicate IsCornerless(g: Grid, b: Box) {
    forall r, c :: InGrid(g, r, c) ==> (g[r][c] != 0 <==> InBox(b, r, c) && !AtCorner(b, r, c))
  }

  /** Erosion keeps exactly the block pixels whose four neighbours are block
      pixels too: the block shrunk by one pixel on every side. */
  lemma ErodeBlock(g: Grid, w: nat, b: Box)
    requires Interior(g, w, b) && IsBlock(g, b)
    ensures forall r, c :: InGrid(g, r, c) ==>
              Erode(g)[r][c] == if b.top < r < b.bottom && b.left < c < b.right then White else 0
  {
    forall r, c | InGrid(g, r, c)
      ensures Erode(g)[r][c] == if b.top < r < b.bottom && b.left < c < b.right then White else 0
    {
      assert Erode(g)[r][c] == CrossMin(g, r, c);
      if InBox(b, r, c) {
        assert InGrid(g, r - 1, c) && InGrid(g, r + 1, c) && InGrid(g, r, c - 1) && InGrid(g, r, c + 1);
      }
    }
  }

  /** Opening a block at least three pixels high and wide removes exactly
      its four corners. */
  lemma OpenBlock(g: Grid, w: nat, b: Box)
    requires Interior(g, w, b) && IsBlock(g, b)
    requires b.bottom - b.top >= 2 && b.right - b.left >= 2
    ensures IsCornerless(Open(g), b)
  {
    var e := Erode(g);
    ErodeBlock(g, w, b);
    forall r, c | InGrid(Open(g), r, c)
      ensures Open(g)[r][c] != 0 <==> InBox(b, r, c) && !AtCorner(b, r, c)
    {
      assert Open(g)[r][c] == CrossMax(e, r, c);
      if InBox(b, r, c) && !AtCorner(b, r, c) {
        // Step one pixel towards the block's inside.
        var ir := if r == b.top then r + 1 else if r == b.bottom then r - 1 else r;
        var ic := if ir != r then c else if c == b.left then c + 1 else if c == b.right then c - 1 else c;
        assert InGrid(e, ir, ic) && e[ir][ic] == White;
      } else {
        assert At(e, r, c, 0) == 0;
        assert At(e, r - 1, c, 0) == 0 && At(e, r + 1, c, 0) == 0;
        assert At(e, r, c - 1, 0) == 0 && At(e, r, c + 1, 0) == 0;
      }
    }
  }

  /** A block less than three pixels high or wide vanishes under the opening. */
  lemma OpenThinBlock(g: Grid, w: nat, b: Box)
    requires Interior(g, w, b) && IsBlock(g, b)
    requires b.bottom - b.top < 2 || b.right - b.left < 2
    ensures AllZero(Open(g))
  {
    var e := Erode(g);
    ErodeBlock(g, w, b);
    forall r, c | InGrid(Open(g), r, c) ensures Open(g)[r][c] == 0 {
      assert Open(g)[r][c] == CrossMax(e, r, c);
      assert At(e, r, c, 0) == 0;
      assert At(e, r - 1, c, 0) == 0 && At(e, r + 1, c, 0) == 0;
      assert At(e, r, c - 1, 0) == 0 && At(e, r, c + 1, 0) == 0;
    }
  }

  /** A row that is nonzero exactly on the columns lo..hi counts the part of
      that range lying inside the row. */
  lemma {:induction false} RowCountRun(row: seq<int>, lo: int, hi: int)
    requires 0 <= lo
    requires forall j :: 0 <= j < |row| ==> (row[j] != 0 <==> lo <= j <= hi)
    ensures RowCount(row) == Max(0, Min(hi + 1, |row|) - lo)
  {
    if row != [] {
      var n := |row| - 1;
      RowCountRun(row[..n], lo, hi);
    }
  }

  /** Nonzero pixels of a cornerless box within the first n rows. */
  function CornerlessRows(b: Box, n: int): int {
    var w := b.right - b.left + 1;
    if n <= b.top then 0
    else if n <= b.bottom then (w - 2) + (n - b.top - 1) * w
    else 2 * (w - 2) + (b.bottom - b.top - 1) * w
  }

  /** One row of a cornerless box: nothing outside the box's rows, all but
      the two corners on its top and bottom rows, the full width between. */
  lemma CornerlessRow(g: Grid, w: nat, b: Box, m: nat)
    requires Interior(g, w, b) && IsCornerless(g, b) && b.right - b.left >= 2 && m < |g|
    ensures RowCount(g[m]) ==
              if m < b.top || m > b.bottom then 0
              else if m == b.top || m == b.bottom then b.right - b.left - 1
              else b.right - b.left + 1
  {
    if m < b.top || m > b.bottom {
      RowCountRun(g[m], 1, 0);
    } else if m == b.top || m == b.bottom {
      RowCountRun(g[m], b.left + 1, b.right - 1);
    } else {
      RowCountRun(g[m], b.left, b.right);
    }
  }

  lemma {:induction false} CountCornerlessRows(g: Grid, w: nat, b: Box, n: nat)
    requires Interior(g, w, b) && IsCornerless(g, b) && b.bottom - b.top >= 2 && b.right - b.left >= 2
    requires n <= |g|
    ensures CountNonZero(g[..n]) == CornerlessRows(b, n)
  {
    if n > 0 {
      var m := n - 1;
      CountCornerlessRows(g, w, b, m);
      assert g[..n][..m] == g[..m];
      CornerlessRow(g, w, b, m);
      var bw := b.right - b.left + 1;
      assert (m + 1 - b.top - 1) * bw == (m - b.top - 1) * bw + bw;
    }
  }

  /** A cornerless box of height h and width w holds h * w - 4 nonzero pixels. */
  lemma CountCornerless(g: Grid, w: nat, b: Box)
    requires Interior(g, w, b) && IsCornerless(g, b) && b.bottom - b.top >= 2 && b.right - b.left >= 2
    ensures CountNonZero(g) == (b.bottom - b.top + 1) * (b.right - b.left + 1) - 4
  {
    CountCornerlessRows(g, w, b, |g|);
    assert g[..|g|] == g;
    var bw := b.right - b.left + 1;
    assert (b.bottom - b.top + 1) * bw == (b.bottom - b.top - 1) * bw + 2 * bw;
  }

  /** The bounding rectangle of a cornerless box is the box itself: the
      corners go, but every edge keeps pixels. */
  lemma CornerlessBounds(g: Grid, w: nat, b: Box)
    requires Interior(g, w, b) && IsCornerless(g, b) && b.bottom - b.top >= 2 && b.right - b.left >= 2
    ensures Bounds(g) == Some(b)
  {
    BoundsSpec(g);
    assert NonZeroAt(g, b.top, b.left + 1) && NonZeroAt(g, b.bottom, b.left + 1);
    assert NonZeroAt(g, b.top + 1, b.left) && NonZeroAt(g, b.top + 1, b.right);
  }
}
