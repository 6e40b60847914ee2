/** Line drawing into the back buffer: Bresenham's loop with 32-bit error arithmetic. */
module Graphics {
  import opened Bits

  predicate InInt32(x: int) {
    -0x8000_0000 <= x < 0x8000_0000
  }

  type int32 = x: int | InInt32(x)

  function Abs(x: int): nat {
    if x < 0 then -x else x
  }

  function Max(a: int, b: int): int {
    if a < b then b else a
  }

  datatype Point = Point(x: int, y: int)

  // ---------------------------------------------------------------- pixels

  /** The unsigned reading of a signed coordinate. */
  function Unsigned(x: int): nat
    requires InInt32(x)
  {
    if x < 0 then x + TWO32 else x
  }

  /** put_pixel shows a point exactly if it lies on the screen. */
  predicate Visible(p: Point, width: nat, height: nat) {
    0 <= p.x < width && 0 <= p.y < height
  }

  /** The buffer after painting one point. */
  function Painted(buf: seq<u32>, width: nat, height: nat, stride: nat, p: Point, color: u32): (r: seq<u32>)
    requires width <= stride && |buf| == height * stride
    ensures |r| == |buf|
  {
    if Visible(p, width, height) then
      PixelInside(width, height, stride, p);
      buf[p.y * stride + p.x := color]
    else buf
  }

  lemma PixelInside(width: nat, height: nat, stride: nat, p: Point)
    requires width <= stride && Visible(p, width, height)
    ensures 0 <= p.y * stride + p.x < height * stride
  {
    MulMonotone(p.y + 1, height, stride);
  }

  /** The buffer after painting points in order. */
  function PaintedAll(buf: seq<u32>, width: nat, height: nat, stride: nat, points: seq<Point>, color: u32)
    : (r: seq<u32>)
    requires width <= stride && |buf| == height * stride
    ensures |r| == |buf|
    decreases |points|
  {
    if |points| == 0 then buf
    else Painted(PaintedAll(buf, width, height, stride, points[..|points| - 1], color),
                 width, height, stride, points[|points| - 1], color)
  }

  /** Two visible points share a pixel only if they are the same point. */
  lemma PixelsApart(width: nat, height: nat, stride: nat, p: Point, q: Point)
    requires width <= stride && Visible(p, width, height) && Visible(q, width, height)
    requires p.y * stride + p.x == q.y * stride + q.x
    ensures p == q
  {
    DivModUnique(p.y * stride + p.x, stride, p.y, p.x);
    DivModUnique(q.y * stride + q.x, stride, q.y, q.x);
  }

  /** A pixel has the colour afterwards exactly if a painted point covers it or it had it before. */
  lemma {:induction false} PaintedAllAt(
    buf: seq<u32>, width: nat, height: nat, stride: nat, points: seq<Point>, color: u32, q: Point)
    requires width <= stride && |buf| == height * stride && 0 <= q.x < width && 0 <= q.y < height
    ensures 0 <= q.y * stride + q.x < |buf|
    ensures PaintedAll(buf, width, height, stride, points, color)[q.y * stride + q.x]
         == if q in points then color else buf[q.y * stride + q.x]
    decreases |points|
  {
    PixelInside(width, height, stride, q);
    if |points| > 0 {
      var init, p := points[..|points| - 1], points[|points| - 1];
      PaintedAllAt(buf, width, height, stride, init, color, q);
      assert points == init + [p];
      if Visible(p, width, height) {
        PixelInside(width, height, stride, p);
        if p.y * stride + p.x == q.y * stride + q.x {
          PixelsApart(width, height, stride, p, q);
        }
      }
    }
  }

  /**
   The same for every word of the buffer: the word in column x of row y changes only if x is a
   column of the screen and the point is among those painted; the padding of a row never does.
   */
  lemma {:induction false} PaintedWord(
    buf: seq<u32>, width: nat, height: nat, stride: nat, points: seq<Point>, color: u32, x: nat, y: nat)
    requires width <= stride && |buf| == height * stride && x < stride && y < height
    ensures y * stride + x < |buf|
    ensures PaintedAll(buf, width, height, stride, points, color)[y * stride + x]
         == if x < width && Point(x, y) in points then color else buf[y * stride + x]
    decreases |points|
  {
    hide PaintedAll, Painted;
    MulMonotone(y + 1, height, stride);
    if x < width {
      PaintedAllAt(buf, width, height, stride, points, color, Point(x, y));
    } else if |points| == 0 {
      PaintedNone(buf, width, height, stride, color);
    } else {
      var init, p := points[..|points| - 1], points[|points| - 1];
      assert points == init + [p];
      PaintedOne(buf, width, height, stride, init, p, color);
      PaintedWord(buf, width, height, stride, init, color, x, y);
      PaddingStays(PaintedAll(buf, width, height, stride, init, color), width, height, stride, p, color, x, y);
    }
  }

  lemma PaddingStays(buf: seq<u32>, width: nat, height: nat, stride: nat, p: Point, color: u32, x: nat, y: nat)
    requires width <= x < stride && y < height && |buf| == height * stride && y * stride + x < |buf|
    ensures Painted(buf, width, height, stride, p, color)[y * stride + x] == buf[y * stride + x]
  {
    if Visible(p, width, height) {
      PixelInside(width, height, stride, p);
      DivModUnique(p.y * stride + p.x, stride, p.y, p.x);
      DivModUnique(y * stride + x, stride, y, x);
    }
  }

  // ---------------------------------------------------------------- the error term

  /**
   After i steps in x and j in y the deviation is j*dx - i*dy, and the error variable is that
   plus dx - dy.
   */
  function Deviation(dx: nat, dy: nat, i: nat, j: nat): int {
    j * dx - i * dy
  }

  /**
   What every point of the line satisfies: twice the deviation is at most the longer side, with
   one end of the range excluded depending on which side is longer, and zero on a diagonal.
   */
  ghost predicate Close(dx: nat, dy: nat, e: int) {
    && (dx > dy ==> 0 - dx <= 2 * e < dx)
    && (dx < dy ==> 0 - dy < 2 * e <= dy)
    && (dx == dy ==> e == 0)
  }

  /**
   Side lengths for which the error arithmetic stays inside 32 bits: in particular all below
   715827883, and longer ones near a diagonal or along an axis.
   */
  predicate SidesFit(dx: nat, dy: nat) {
    var longer, shorter := if dx < dy then dy else dx, if dx < dy then dx else dy;
    && longer < 0x8000_0000 && 3 * longer <= TWO32
    && (3 * longer - 2 * shorter <= 0x8000_0000 || (shorter == 0 && longer < 0x4000_0000))
  }

  lemma SidesInRange(dx: nat, dy: nat)
    requires SidesFit(dx, dy)
    ensures InInt32(dx) && InInt32(dy) && InInt32(dx - dy)
  {
  }

  predicate StepsX(dx: nat, dy: nat, err: int) {
    2 * err > 0 - dy
  }

  predicate StepsY(dx: nat, dy: nat, err: int) {
    2 * err < dx
  }

  /** Where the deviation stays close, the longer side always advances, and the error is bounded. */
  lemma LongerSideAdvances(dx: nat, dy: nat, e: int)
    requires Close(dx, dy, e) && (dx > 0 || dy > 0)
    ensures dx >= dy ==> StepsX(dx, dy, e + dx - dy)
    ensures dy >= dx ==> StepsY(dx, dy, e + dx - dy)
  {
  }

  lemma CloseAfterStep(dx: nat, dy: nat, e: int)
    requires Close(dx, dy, e) && (dx > 0 || dy > 0)
    ensures var err := e + dx - dy;
            Close(dx, dy, e - (if StepsX(dx, dy, err) then dy else 0) + (if StepsY(dx, dy, err) then dx else 0))
  {
  }

  lemma DeviationStep(dx: nat, dy: nat, i: nat, j: nat)
    ensures Deviation(dx, dy, i + 1, j) == Deviation(dx, dy, i, j) - dy
    ensures Deviation(dx, dy, i, j + 1) == Deviation(dx, dy, i, j) + dx
    ensures Deviation(dx, dy, i + 1, j + 1) == Deviation(dx, dy, i, j) - dy + dx
  {
  }

  /** Half a multiple of d is below d only for zero. */
  lemma NoHalfStep(k: int, d: nat)
    requires d > 0 && 0 - d <= 2 * (k * d) <= d
    ensures k == 0
  {
    var m := Abs(k);
    assert m * d == if k < 0 then -(k * d) else k * d;
    if m >= 1 {
      MulMonotone(1, m, d);
    }
  }

  /** Once the longer side is done, so is the other. */
  lemma BothEndsTogether(dx: nat, dy: nat, i: nat, j: nat)
    requires Close(dx, dy, Deviation(dx, dy, i, j))
    ensures dx >= dy && i == dx && dx > 0 ==> j == dy
    ensures dy >= dx && j == dy && dy > 0 ==> i == dx
  {
    if dx >= dy && i == dx && dx > 0 {
      assert Deviation(dx, dy, i, j) == (j - dy) * dx;
      NoHalfStep(j - dy, dx);
    }
    if dy >= dx && j == dy && dy > 0 {
      assert Deviation(dx, dy, i, j) == (dx - i) * dy;
      NoHalfStep(dx - i, dy);
    }
  }

  // ---------------------------------------------------------------- the walk

  /** A line to draw: start, direction of each coordinate, and the two side lengths. */
  datatype Line = Line(x0: int, y0: int, sx: int, sy: int, dx: nat, dy: nat)

  function LineOf(x0: int, y0: int, x1: int, y1: int): Line {
    Line(x0, y0, if x0 < x1 then 1 else -1, if y0 < y1 then 1 else -1, Abs(x1 - x0), Abs(y1 - y0))
  }

  /** The point after i steps in x and j in y. */
  function At(l: Line, i: nat, j: nat): Point {
    Point(l.x0 + l.sx * i, l.y0 + l.sy * j)
  }

  function ErrorAt(l: Line, i: nat, j: nat): int {
    Deviation(l.dx, l.dy, i, j) + l.dx - l.dy
  }

  ghost predicate OnLine(l: Line, i: nat, j: nat) {
    i <= l.dx && j <= l.dy && Close(l.dx, l.dy, Deviation(l.dx, l.dy, i, j))
  }

  function NextI(l: Line, i: nat, j: nat): nat {
    if StepsX(l.dx, l.dy, ErrorAt(l, i, j)) then i + 1 else i
  }

  function NextJ(l: Line, i: nat, j: nat): nat {
    if StepsY(l.dx, l.dy, ErrorAt(l, i, j)) then j + 1 else j
  }

  /** Short of the end, the longer side advances by one, the other by at most one, and both stay in range. */
  lemma StepOnLine(l: Line, i: nat, j: nat)
    requires OnLine(l, i, j) && !(i == l.dx && j == l.dy)
    ensures OnLine(l, NextI(l, i, j), NextJ(l, i, j))
    ensures l.dx >= l.dy ==> i < l.dx && NextI(l, i, j) == i + 1
    ensures l.dy >= l.dx ==> j < l.dy && NextJ(l, i, j) == j + 1
  {
    var e := Deviation(l.dx, l.dy, i, j);
    var ni, nj := NextI(l, i, j), NextJ(l, i, j);
    BothEndsTogether(l.dx, l.dy, i, j);
    LongerSideAdvances(l.dx, l.dy, e);
    CloseAfterStep(l.dx, l.dy, e);
    DeviationStep(l.dx, l.dy, i, j);
    StaysInRange(l.dx, l.dy, ni, nj);
  }

  lemma CancelFactor(a: nat, b: nat, d: nat)
    requires a * d < b * d
    ensures a < b
  {
    if b <= a {
      MulMonotone(b, a, d);
    }
  }

  /** A close point whose longer coordinate is in range has both coordinates in range. */
  lemma StaysInRange(dx: nat, dy: nat, i: nat, j: nat)
    requires Close(dx, dy, Deviation(dx, dy, i, j))
    ensures dx >= dy && i <= dx && dx > 0 ==> j <= dy
    ensures dy >= dx && j <= dy && dy > 0 ==> i <= dx
  {
    if dx >= dy && i <= dx && dx > 0 {
      MulMonotone(i, dx, dy);
      assert (dy + 1) * dx == dx * dy + dx;
      CancelFactor(j, dy + 1, dx);
    }
    if dy >= dx && j <= dy && dy > 0 {
      MulMonotone(j, dy, dx);
      assert (dx + 1) * dy == dy * dx + dy;
      CancelFactor(i, dx + 1, dy);
    }
  }

  /** The loop's updates of point and error are the step of the counts. */
  lemma StepUpdates(l: Line, i: nat, j: nat, x: int, y: int, err: int)
    requires OnLine(l, i, j) && !(i == l.dx && j == l.dy)
    requires Point(x, y) == At(l, i, j) && err == ErrorAt(l, i, j)
    ensures var goX, goY := 2 * err > 0 - l.dy, 2 * err < l.dx;
            && Point(if goX then x + l.sx else x, if goY then y + l.sy else y) == At(l, NextI(l, i, j), NextJ(l, i, j))
            && (if goX then err - l.dy else err) + (if goY then l.dx else 0)
            == ErrorAt(l, NextI(l, i, j), NextJ(l, i, j))
  {
    NextPoint(l, i, j);
    DeviationStep(l.dx, l.dy, i, j);
    hide At, Deviation;
  }

  lemma NextPoint(l: Line, i: nat, j: nat)
    ensures At(l, i + 1, j) == Point(At(l, i, j).x + l.sx, At(l, i, j).y)
    ensures At(l, i, j + 1) == Point(At(l, i, j).x, At(l, i, j).y + l.sy)
    ensures At(l, i + 1, j + 1) == Point(At(l, i, j).x + l.sx, At(l, i, j).y + l.sy)
  {
  }

  /** A step goes no further than the end, and on. */
  lemma StepMoves(l: Line, i: nat, j: nat)
    requires OnLine(l, i, j) && !(i == l.dx && j == l.dy)
    ensures i <= NextI(l, i, j) <= l.dx && j <= NextJ(l, i, j) <= l.dy
    ensures l.dx - NextI(l, i, j) + l.dy - NextJ(l, i, j) < l.dx - i + l.dy - j
  {
    StepOnLine(l, i, j);
  }

  /** The points the loop visits from (i, j) on. */
  function Walk(l: Line, i: nat, j: nat): (path: seq<Point>)
    requires OnLine(l, i, j)
    ensures |path| > 0 && path[0] == At(l, i, j)
    decreases l.dx - i + l.dy - j
  {
    if i == l.dx && j == l.dy then [At(l, i, j)]
    else
      StepOnLine(l, i, j);
      [At(l, i, j)] + Walk(l, NextI(l, i, j), NextJ(l, i, j))
  }

  // ---------------------------------------------------------------- what the walk is

  /** Neighbours touch at a side or a corner. */
  predicate Adjacent(p: Point, q: Point) {
    p != q && Abs(p.x - q.x) <= 1 && Abs(p.y - q.y) <= 1
  }

  /** Twice the deviation of a point from the ideal line is at most the longer side. */
  predicate HalfPixel(p: Point, l: Line) {
    2 * Abs(Deviation(l.dx, l.dy, Abs(p.x - l.x0), Abs(p.y - l.y0))) <= Max(l.dx, l.dy)
  }

  /** From (i, j) on: one point per step of the longer side, connected, within half a pixel, to the end. */
  ghost predicate WalksOn(path: seq<Point>, l: Line, i: nat, j: nat) {
    && |path| == (if l.dx >= l.dy then l.dx - i else l.dy - j) + 1
    && |path| > 0 && path[0] == At(l, i, j) && path[|path| - 1] == At(l, l.dx, l.dy)
    && (forall k :: 0 <= k < |path| - 1 ==> Adjacent(path[k], path[k + 1]))
    && (forall k :: 0 <= k < |path| ==> HalfPixel(path[k], l))
  }

  ghost predicate Directed(l: Line) {
    l.sx in {1, -1} && l.sy in {1, -1}
  }

  lemma HalfPixelAt(l: Line, i: nat, j: nat)
    requires Directed(l) && OnLine(l, i, j)
    ensures HalfPixel(At(l, i, j), l)
  {
  }

  lemma AdjacentStep(l: Line, i: nat, j: nat)
    requires Directed(l) && OnLine(l, i, j) && !(i == l.dx && j == l.dy)
    ensures Adjacent(At(l, i, j), At(l, NextI(l, i, j), NextJ(l, i, j)))
  {
    StepOnLine(l, i, j);
  }

  lemma {:induction false} WalkWalksOn(l: Line, i: nat, j: nat)
    requires Directed(l) && OnLine(l, i, j)
    ensures WalksOn(Walk(l, i, j), l, i, j)
    decreases l.dx - i + l.dy - j
  {
    HalfPixelAt(l, i, j);
    if !(i == l.dx && j == l.dy) {
      StepOnLine(l, i, j);
      AdjacentStep(l, i, j);
      WalkWalksOn(l, NextI(l, i, j), NextJ(l, i, j));
      Prepended(At(l, i, j), Walk(l, NextI(l, i, j), NextJ(l, i, j)), l);
    }
  }

  lemma Prepended(p: Point, rest: seq<Point>, l: Line)
    requires |rest| > 0 && Adjacent(p, rest[0]) && HalfPixel(p, l)
    requires forall k :: 0 <= k < |rest| - 1 ==> Adjacent(rest[k], rest[k + 1])
    requires forall k :: 0 <= k < |rest| ==> HalfPixel(rest[k], l)
    ensures var path := [p] + rest;
            && (forall k :: 0 <= k < |path| - 1 ==> Adjacent(path[k], path[k + 1]))
            && (forall k :: 0 <= k < |path| ==> HalfPixel(path[k], l))
  {
    var path := [p] + rest;
    forall k | 0 <= k < |path| - 1
      ensures Adjacent(path[k], path[k + 1])
    {
      if k > 0 {
        assert path[k] == rest[k - 1] && path[k + 1] == rest[k];
      }
    }
  }

  lemma StartOnLine(l: Line)
    ensures OnLine(l, 0, 0) && At(l, 0, 0) == Point(l.x0, l.y0) && ErrorAt(l, 0, 0) == l.dx - l.dy
  {
  }

  /**
   The line between any two points: exactly one point for each step of the longer side and the
   start, from one end to the other, each adjacent to the next, none more than half a pixel off.
   */
  lemma WalkIsLine(x0: int, y0: int, x1: int, y1: int)
    ensures OnLine(LineOf(x0, y0, x1, y1), 0, 0)
    ensures var l := LineOf(x0, y0, x1, y1);
            var path := Walk(l, 0, 0);
            && |path| == Max(Abs(x1 - x0), Abs(y1 - y0)) + 1
            && path[0] == Point(x0, y0) && path[|path| - 1] == Point(x1, y1)
            && (forall k :: 0 <= k < |path| - 1 ==> Adjacent(path[k], path[k + 1]))
            && (forall k :: 0 <= k < |path| ==> HalfPixel(path[k], l))
  {
    var l := LineOf(x0, y0, x1, y1);
    StartOnLine(l);
    WalkWalksOn(l, 0, 0);
  }

  /** Point k of the walk from (i, j): k further steps of the longer side, and still on the line. */
  lemma {:induction false} WalkPoint(l: Line, i: nat, j: nat, k: nat) returns (m: nat, n: nat)
    requires OnLine(l, i, j) && k < |Walk(l, i, j)|
    ensures OnLine(l, m, n) && Walk(l, i, j)[k] == At(l, m, n)
    ensures (l.dx >= l.dy ==> m == i + k) && (l.dy >= l.dx ==> n == j + k)
    decreases k
  {
    hide OnLine, At, NextI, NextJ, Deviation;
    m, n := i, j;
    if k > 0 {
      StepOnLine(l, i, j);
      m, n := WalkPoint(l, NextI(l, i, j), NextJ(l, i, j), k - 1);
    }
  }

  /**
   Exactly which points: point k lies k steps along the longer side, and its distance along the
   other side is the one that rounding leaves, halves going one way when x leads and the other
   way when y leads.
   */
  lemma WalkExact(x0: int, y0: int, x1: int, y1: int, path: seq<Point>, k: nat)
    requires OnLine(LineOf(x0, y0, x1, y1), 0, 0) && path == Walk(LineOf(x0, y0, x1, y1), 0, 0) && k < |path|
    ensures var p, dx, dy := path[k], Abs(x1 - x0), Abs(y1 - y0);
      var i, j := Abs(p.x - x0), Abs(p.y - y0);
      && (dx >= dy ==> i == k) && (dy >= dx ==> j == k)
      && (dx > dy ==> 0 - dx <= 2 * (j * dx - i * dy) < dx)
      && (dx < dy ==> 0 - dy < 2 * (j * dx - i * dy) <= dy)
      && (dx == dy ==> i == j)
      && p.x == (if x0 < x1 then x0 + i else x0 - i) && p.y == (if y0 < y1 then y0 + j else y0 - j)
  {
    var m, n := WalkPoint(LineOf(x0, y0, x1, y1), 0, 0, k);
    hide Walk;
  }

  /** Each end is reached exactly where the step counts are used up. */
  lemma EndReached(x0: int, y0: int, x1: int, y1: int, i: nat, j: nat)
    ensures At(LineOf(x0, y0, x1, y1), i, j) == Point(x1, y1)
      <==> i == Abs(x1 - x0) && j == Abs(y1 - y0)
  {
  }

  // ---------------------------------------------------------------- 32-bit arithmetic

  /** The values that one turn of the loop computes from the error fit 32 signed bits. */
  ghost predicate StepInRange(l: Line, i: nat, j: nat) {
    var e := ErrorAt(l, i, j);
    var afterX := if StepsX(l.dx, l.dy, e) then e - l.dy else e;
    && InInt32(2 * e) && InInt32(0 - l.dy)
    && InInt32(afterX) && (StepsY(l.dx, l.dy, e) ==> InInt32(afterX + l.dx))
  }

  /** No turn of the walk from (i, j) on overflows; the arithmetic of the source asks for just that. */
  ghost predicate NoOverflow(l: Line, i: nat, j: nat)
    requires OnLine(l, i, j)
    decreases l.dx - i + l.dy - j
  {
    if i == l.dx && j == l.dy then true
    else
      StepOnLine(l, i, j);
      StepMoves(l, i, j);
      StepInRange(l, i, j) && NoOverflow(l, NextI(l, i, j), NextJ(l, i, j))
  }

  /** What the 32-bit arithmetic of draw_line asks of a line, and no more. */
  ghost predicate LineFits(l: Line) {
    StartOnLine(l);
    InInt32(l.dx) && InInt32(l.dy) && NoOverflow(l, 0, 0)
  }

  lemma NextFits(l: Line, i: nat, j: nat)
    requires OnLine(l, i, j) && !(i == l.dx && j == l.dy) && NoOverflow(l, i, j)
    ensures OnLine(l, NextI(l, i, j), NextJ(l, i, j))
    ensures StepInRange(l, i, j) && NoOverflow(l, NextI(l, i, j), NextJ(l, i, j))
  {
    StepOnLine(l, i, j);
  }

  /** All sides up to 715827882, and those that SidesFit admits beyond, never overflow. */
  lemma {:induction false} SidesFitNoOverflow(l: Line, i: nat, j: nat)
    requires OnLine(l, i, j) && SidesFit(l.dx, l.dy)
    ensures NoOverflow(l, i, j)
    decreases l.dx - i + l.dy - j
  {
    if !(i == l.dx && j == l.dy) {
      hide Deviation, SidesFit, OnLine, StepInRange;
      StepOnLine(l, i, j);
      StepMoves(l, i, j);
      ErrorFits(l, i, j);
      SidesFitNoOverflow(l, NextI(l, i, j), NextJ(l, i, j));
    }
  }

  lemma SidesFitLine(l: Line)
    requires SidesFit(l.dx, l.dy)
    ensures LineFits(l)
  {
    StartOnLine(l);
    SidesInRange(l.dx, l.dy);
    SidesFitNoOverflow(l, 0, 0);
  }

  // ---------------------------------------------------------------- drawing

  class Graphics {
    const backBuffer: array<u32>
    const width: u32
    const height: u32
    const stride: u32

    /** The buffer holds height rows of stride pixels, and its size in bytes fits 32 bits. */
    ghost predicate Valid() {
      width <= stride && backBuffer.Length == height * stride && height * stride * 4 < TWO32
    }

    constructor (buffer: array<u32>, w: u32, h: u32, stride: u32)
      requires w <= stride && buffer.Length == h * stride && h * stride * 4 < TWO32
      ensures Valid() && backBuffer == buffer && width == w && height == h && this.stride == stride
    {
      backBuffer, width, height, this.stride := buffer, w, h, stride;
    }

    /** Coordinates arrive as unsigned words, so negative ones fail the range check. */
    method PutPixel(x: u32, y: u32, color: u32)
      requires Valid()
      modifies backBuffer
      ensures backBuffer[..] == Painted(old(backBuffer[..]), width, height, stride, Point(x, y), color)
      ensures x < width && y < height ==>
        && y * stride + x < backBuffer.Length
        && backBuffer[..] == old(backBuffer[..])[y * stride + x := color]
      ensures x >= width || y >= height ==> backBuffer[..] == old(backBuffer[..])
    {
      if x >= width || y >= height {
        return;
      }
      PixelInside(width, height, stride, Point(x, y));
      backBuffer[y * stride + x] := color;
    }

    /** A screen that shows anything has sides below 2^30, since its buffer fits 32 bits. */
    lemma ScreenFits()
      requires Valid() && width > 0 && height > 0
      ensures width < 0x4000_0000 && height < 0x4000_0000
    {
      MulMonotone(1, height, stride);
      MulMonotone(1, stride, height);
    }

    /** So a negative coordinate read as unsigned lies off every screen. */
    lemma UnsignedPoint(buf: seq<u32>, x: int, y: int, color: u32)
      requires Valid() && |buf| == height * stride && InInt32(x) && InInt32(y)
      ensures Painted(buf, width, height, stride, Point(Unsigned(x), Unsigned(y)), color)
           == Painted(buf, width, height, stride, Point(x, y), color)
    {
      if width > 0 && height > 0 {
        ScreenFits();
      }
    }

    /**
     draw_line: the loop has no guard; it leaves at the end point. Every intermediate value of
     the error arithmetic and of the coordinates fits a signed 32-bit word.
     */
    method DrawLine(x0: int32, y0: int32, x1: int32, y1: int32, color: u32)
      requires Valid()
      requires LineFits(LineOf(x0, y0, x1, y1))
      modifies backBuffer
      ensures OnLine(LineOf(x0, y0, x1, y1), 0, 0)
      ensures backBuffer[..] ==
        PaintedAll(old(backBuffer[..]), width, height, stride, Walk(LineOf(x0, y0, x1, y1), 0, 0), color)
    {
      hide At, ErrorAt, OnLine, NextI, NextJ, Walk, Painted, PaintedAll, NoOverflow, Deviation;
      var dx: int32 := if x1 > x0 then x1 - x0 else x0 - x1;
      var dy: int32 := if y1 > y0 then y1 - y0 else y0 - y1;
      var sx := if x0 < x1 then 1 else -1;
      var sy := if y0 < y1 then 1 else -1;
      var err: int32 := dx - dy;
      var x: int32, y: int32 := x0, y0;
      ghost var l, was := LineOf(x0, y0, x1, y1), backBuffer[..];
      ghost var i: nat, j: nat, done: seq<Point> := 0, 0, [];
      StartOnLine(l);
      PaintedNone(was, width, height, stride, color);
      ghost var path := Walk(l, 0, 0);
      while true
        invariant OnLine(l, i, j) && NoOverflow(l, i, j) && Point(x, y) == At(l, i, j) && err == ErrorAt(l, i, j)
        invariant path == done + Walk(l, i, j)
        invariant backBuffer[..] == PaintedAll(was, width, height, stride, done, color)
        decreases dx - i + dy - j
      {
        UnsignedPoint(backBuffer[..], x, y, color);
        PutPixel(Unsigned(x), Unsigned(y), color);
        PaintedOne(was, width, height, stride, done, Point(x, y), color);
        EndReached(x0, y0, x1, y1, i, j);
        if x == x1 && y == y1 {
          WalkEnds(l, i, j);
          break;
        }
        StepMoves(l, i, j);
        NextFits(l, i, j);
        AppendWalk(path, done, l, i, j);
        x, y, err := Advance(l, i, j, x, y, err, dx, dy, sx, sy, x1, y1);
        done, i, j := done + [At(l, i, j)], NextI(l, i, j), NextJ(l, i, j);
      }
    }

    /** The two conditional updates of one turn; no value they pass through leaves 32 bits. */
    static method Advance(ghost l: Line, ghost i: nat, ghost j: nat, x: int32, y: int32, err: int32,
                          dx: int32, dy: int32, sx: int32, sy: int32, ghost x1: int32, ghost y1: int32)
      returns (nx: int32, ny: int32, nerr: int32)
      requires OnLine(l, i, j) && !(i == l.dx && j == l.dy) && StepInRange(l, i, j)
      requires Point(x, y) == At(l, i, j) && err == ErrorAt(l, i, j)
      requires dx == l.dx && dy == l.dy && sx == l.sx && sy == l.sy
      requires InInt32(l.x0) && InInt32(l.y0) && l == LineOf(l.x0, l.y0, x1, y1)
      ensures Point(nx, ny) == At(l, NextI(l, i, j), NextJ(l, i, j))
      ensures nerr == ErrorAt(l, NextI(l, i, j), NextJ(l, i, j))
    {
      hide At, ErrorAt, OnLine, NextI, NextJ, LineOf;
      StepMoves(l, i, j);
      StepUpdates(l, i, j, x, y, err);
      StepFits(l.x0, l.y0, x1, y1, l, NextI(l, i, j), NextJ(l, i, j));
      nx, ny, nerr := x, y, err;
      var e2: int32 := 2 * err;
      if e2 > 0 - dy {
        nerr := nerr - dy;
        nx := nx + sx;
      }
      if e2 < dx {
        nerr := nerr + dx;
        ny := ny + sy;
      }
    }
  }

  lemma PaintedNone(buf: seq<u32>, width: nat, height: nat, stride: nat, color: u32)
    requires width <= stride && |buf| == height * stride
    ensures PaintedAll(buf, width, height, stride, [], color) == buf
  {
  }

  lemma PaintedOne(buf: seq<u32>, width: nat, height: nat, stride: nat, points: seq<Point>, p: Point, color: u32)
    requires width <= stride && |buf| == height * stride
    ensures PaintedAll(buf, width, height, stride, points + [p], color)
         == Painted(PaintedAll(buf, width, height, stride, points, color), width, height, stride, p, color)
  {
    assert (points + [p])[..|points|] == points;
  }

  lemma WalkEnds(l: Line, i: nat, j: nat)
    requires OnLine(l, i, j) && i == l.dx && j == l.dy
    ensures Walk(l, i, j) == [At(l, i, j)]
  {
  }

  lemma AppendWalk(path: seq<Point>, done: seq<Point>, l: Line, i: nat, j: nat)
    requires OnLine(l, i, j) && !(i == l.dx && j == l.dy) && path == done + Walk(l, i, j)
    ensures OnLine(l, NextI(l, i, j), NextJ(l, i, j))
    ensures path == (done + [At(l, i, j)]) + Walk(l, NextI(l, i, j), NextJ(l, i, j))
  {
    StepOnLine(l, i, j);
  }

  /** The deviation is zero throughout a line along an axis, and close otherwise. */
  lemma FlatLine(l: Line, i: nat, j: nat)
    requires OnLine(l, i, j) && (l.dx == 0 || l.dy == 0)
    ensures Deviation(l.dx, l.dy, i, j) == 0
  {
    if l.dy == 0 {
      assert j == 0 && 0 * l.dx == 0;
    } else {
      assert i == 0 && 0 * l.dy == 0;
    }
  }

  /** Doubling the error, and the values it passes through in a step, stay inside 32 bits. */
  lemma ErrorFits(l: Line, i: nat, j: nat)
    requires OnLine(l, i, j) && SidesFit(l.dx, l.dy)
    ensures StepInRange(l, i, j)
  {
    if l.dx == 0 || l.dy == 0 {
      FlatLine(l, i, j);
    }
    hide Deviation;
  }

  /** No point of the walk leaves the range of the end points. */
  lemma StepFits(x0: int, y0: int, x1: int, y1: int, l: Line, i: nat, j: nat)
    requires InInt32(x0) && InInt32(y0) && InInt32(x1) && InInt32(y1)
    requires l == LineOf(x0, y0, x1, y1) && i <= l.dx && j <= l.dy
    ensures InInt32(At(l, i, j).x) && InInt32(At(l, i, j).y)
  {
  }
}
